/**
 * The latency test of test-crypto-perf (cperf_test_latency.c). Every accepted op is tied to
 * the next result slot; ops go back to the pool and are used again, slots are not.
 */
module CryptoLatency {
  import opened Util
  import opened Orders
  import opened Mempools
  import opened Traffic
  import opened CryptoDevices

  datatype OpResult = OpResult(tscStart: nat, tscEnd: nat)

  /** The slots that ops point to. */
  ghost function Slots(slotOf: seq<nat>, ops: seq<Obj>): (s: seq<nat>)
    requires forall k :: 0 <= k < |ops| ==> ops[k] < |slotOf|
    ensures |s| == |ops|
    ensures forall k :: 0 <= k < |ops| ==> s[k] == slotOf[ops[k]]
  {
    Pick(slotOf, ops)
  }

  /** Every slot below `n` is either finished or the slot of exactly one op in the device. */
  ghost predicate Tied(slotOf: seq<nat>, flight: seq<Obj>, ended: seq<nat>, n: nat)
  {
    && (forall k :: 0 <= k < |flight| ==> flight[k] < |slotOf|)
    && multiset(ended) + multiset(Slots(slotOf, flight)) == multiset(Range(0, n))
  }

  lemma TiedFacts(slotOf: seq<nat>, flight: seq<Obj>, ended: seq<nat>, n: nat)
    requires Tied(slotOf, flight, ended, n)
    ensures NoDup(Slots(slotOf, flight)) && NoDup(ended)
    ensures forall s :: s in Slots(slotOf, flight) ==> s < n && s !in ended
    ensures forall s :: s in ended ==> s < n
    ensures |ended| + |flight| == n
  {
    var all, slots := Range(0, n), Slots(slotOf, flight);
    assert multiset(ended + slots) == multiset(all);
    SameSize(ended + slots, all);
    SubNoDup(slots, all);
    SubNoDup(ended, all);
    NoDupCounts(all);
    forall s | s in slots ensures s !in ended {
      assert multiset(slots)[s] >= 1;
      assert multiset(all)[s] <= 1;
    }
  }

  lemma TiedSize(slotOf: seq<nat>, flight: seq<Obj>, ended: seq<nat>, n: nat)
    requires Tied(slotOf, flight, ended, n)
    ensures |ended| <= n
  {
    TiedFacts(slotOf, flight, ended, n);
  }

  lemma SlotsConcat(slotOf: seq<nat>, a: seq<Obj>, b: seq<Obj>)
    requires forall k :: 0 <= k < |a| ==> a[k] < |slotOf|
    requires forall k :: 0 <= k < |b| ==> b[k] < |slotOf|
    ensures Slots(slotOf, a + b) == Slots(slotOf, a) + Slots(slotOf, b)
  {
  }

  /** A permutation of ops permutes their slots. */
  lemma SlotsPermutation(slotOf: seq<nat>, a: seq<Obj>, b: seq<Obj>)
    requires multiset(a) == multiset(b)
    requires forall k :: 0 <= k < |a| ==> a[k] < |slotOf|
    ensures forall k :: 0 <= k < |b| ==> b[k] < |slotOf|
    ensures multiset(Slots(slotOf, a)) == multiset(Slots(slotOf, b))
  {
    forall k | 0 <= k < |b| ensures b[k] < |slotOf| {
      assert b[k] in multiset(b);
      assert b[k] in a;
    }
    var f := (o: Obj) => if o < |slotOf| then slotOf[o] else 0;
    MappedPermutation(f, a, b);
    assert Slots(slotOf, a) == Mapped(f, a) && Slots(slotOf, b) == Mapped(f, b);
  }

  /** New ops get the next slots; the ops in the device keep theirs. */
  lemma TiedEnqueue(slotOf: seq<nat>, slotOf': seq<nat>, flight: seq<Obj>, ended: seq<nat>, n: nat, added: seq<Obj>)
    requires Tied(slotOf, flight, ended, n) && |slotOf'| == |slotOf|
    requires forall k :: 0 <= k < |flight| ==> slotOf'[flight[k]] == slotOf[flight[k]]
    requires forall k :: 0 <= k < |added| ==> added[k] < |slotOf'| && slotOf'[added[k]] == n + k
    ensures Tied(slotOf', flight + added, ended, n + |added|)
  {
    SlotsConcat(slotOf', flight, added);
    assert Slots(slotOf', flight) == Slots(slotOf, flight);
    assert Slots(slotOf', added) == Range(n, n + |added|);
    RangeAppend(0, n, n + |added|);
    assert multiset(Range(0, n + |added|)) == multiset(Range(0, n)) + multiset(Range(n, n + |added|));
  }

  /** Returned ops finish their slots. */
  lemma TiedDequeue(slotOf: seq<nat>, flight: seq<Obj>, ended: seq<nat>, n: nat, got: seq<Obj>, rest: seq<Obj>)
    requires Tied(slotOf, flight, ended, n) && multiset(got) + multiset(rest) == multiset(flight)
    ensures forall k :: 0 <= k < |got| ==> got[k] < |slotOf|
    ensures Tied(slotOf, rest, ended + Slots(slotOf, got), n)
    ensures NoDup(Slots(slotOf, got))
    ensures forall k :: 0 <= k < |got| ==> slotOf[got[k]] < n && slotOf[got[k]] !in ended
  {
    SlotsSplit(slotOf, flight, got, rest);
    TiedFacts(slotOf, flight, ended, n);
    var all, done := Slots(slotOf, flight), Slots(slotOf, got);
    assert multiset(ended + done) + multiset(Slots(slotOf, rest)) == multiset(ended) + multiset(all);
    SubNoDup(done, all);
    forall k | 0 <= k < |got| ensures slotOf[got[k]] < n && slotOf[got[k]] !in ended {
      assert slotOf[got[k]] == done[k];
      assert done[k] in all;
    }
  }

  /** Splitting the ops in the device splits their slots. */
  lemma SlotsSplit(slotOf: seq<nat>, flight: seq<Obj>, got: seq<Obj>, rest: seq<Obj>)
    requires multiset(got) + multiset(rest) == multiset(flight)
    requires forall k :: 0 <= k < |flight| ==> flight[k] < |slotOf|
    ensures forall k :: 0 <= k < |got| ==> got[k] < |slotOf|
    ensures forall k :: 0 <= k < |rest| ==> rest[k] < |slotOf|
    ensures multiset(Slots(slotOf, got)) + multiset(Slots(slotOf, rest)) == multiset(Slots(slotOf, flight))
  {
    assert multiset(got + rest) == multiset(flight);
    SlotsPermutation(slotOf, flight, got + rest);
    assert forall k :: 0 <= k < |got| ==> got[k] == (got + rest)[k];
    assert forall k :: 0 <= k < |rest| ==> rest[k] == (got + rest)[|got| + k];
    SlotsConcat(slotOf, got, rest);
  }

  /** Every started slot has a start in the past, every finished one an end not before its start. */
  ghost predicate Stamped(res: seq<OpResult>, ended: seq<nat>, n: nat, now: nat)
  {
    && n <= |res|
    && (forall s :: 0 <= s < n ==> res[s].tscStart <= now)
    && (forall s :: 0 <= s < n && s in ended ==> res[s].tscStart <= res[s].tscEnd <= now)
  }

  /** Exactly the slots in `done` have got the end stamp. */
  ghost predicate EndStamped(before: seq<OpResult>, after: seq<OpResult>, done: seq<nat>, tscEnd: nat)
  {
    && |after| == |before|
    && forall s :: 0 <= s < |before| ==> after[s] == if s in done then before[s].(tscEnd := tscEnd) else before[s]
  }

  lemma StampedLater(res: seq<OpResult>, ended: seq<nat>, n: nat, now: nat, later: nat)
    requires Stamped(res, ended, n, now) && now <= later
    ensures Stamped(res, ended, n, later)
  {
  }

  /** The device's logs of one run, and the slot that each return has finished. */
  datatype History = History(accepted: seq<Obj>, acceptedAt: seq<nat>, returned: seq<Obj>, returnedAt: seq<nat>,
                             ended: seq<nat>)

  ghost function WithAccepted(h: History, added: seq<Obj>, t: nat): (h': History)
  {
    h.(accepted := h.accepted + added, acceptedAt := h.acceptedAt + Times(t, |added|))
  }

  ghost function WithReturned(h: History, slotOf: seq<nat>, got: seq<Obj>, t: nat): (h': History)
    requires forall k :: 0 <= k < |got| ==> got[k] < |slotOf|
  {
    h.(returned := h.returned + got, returnedAt := h.returnedAt + Times(t, |got|),
       ended := h.ended + Slots(slotOf, got))
  }

  /**
   * The k-th op accepted has slot k, and every return finishes a slot of the op that is
   * returned: if an op is used again and again, its slots are finished in their order.
   */
  ghost predicate Matched(h: History)
  {
    && |h.acceptedAt| == |h.accepted| && |h.returnedAt| == |h.returned| == |h.ended|
    && (forall j :: 0 <= j < |h.ended| ==> h.ended[j] < |h.accepted| && h.accepted[h.ended[j]] == h.returned[j])
    && forall i, j :: 0 <= i < j < |h.ended| && h.returned[i] == h.returned[j] ==> h.ended[i] < h.ended[j]
  }

  /** The ops in the device point to slots of their own, behind those they have finished. */
  ghost predicate Pointing(slotOf: seq<nat>, flight: seq<Obj>, h: History)
  {
    && |h.returned| == |h.ended|
    && (forall k :: 0 <= k < |flight| ==>
          && flight[k] < |slotOf| && slotOf[flight[k]] < |h.accepted|
          && h.accepted[slotOf[flight[k]]] == flight[k])
    && forall j, k :: 0 <= j < |h.ended| && 0 <= k < |flight| && h.returned[j] == flight[k] ==>
         h.ended[j] < slotOf[flight[k]]
  }

  /**
   * The start of a slot is the last value read before its op was accepted, the end the first
   * value read after its op was returned.
   */
  ghost predicate Timed(res: seq<OpResult>, h: History, readings: seq<nat>)
  {
    && |h.acceptedAt| == |h.accepted| <= |res| && |h.returnedAt| == |h.ended|
    && (forall s :: 0 <= s < |h.accepted| ==>
          0 < h.acceptedAt[s] <= |readings| && res[s].tscStart == readings[h.acceptedAt[s] - 1])
    && forall j :: 0 <= j < |h.ended| ==>
         h.ended[j] < |res| && h.returnedAt[j] < |readings| && res[h.ended[j]].tscEnd == readings[h.returnedAt[j]]
  }

  /** The clock is read once more. */
  lemma TimedLater(res: seq<OpResult>, h: History, readings: seq<nat>, t: nat)
    requires Timed(res, h, readings)
    ensures Timed(res, h, readings + [t])
  {
  }

  lemma DistinctOps(slotOf: seq<nat>, flight: seq<Obj>)
    requires forall k :: 0 <= k < |flight| ==> flight[k] < |slotOf|
    requires NoDup(Slots(slotOf, flight))
    ensures NoDup(flight)
  {
    forall i, j | 0 <= i < j < |flight| ensures flight[i] != flight[j] {
      assert Slots(slotOf, flight)[i] != Slots(slotOf, flight)[j];
    }
  }

  lemma SlotsInTable(slotOf: seq<nat>, flight: seq<Obj>, got: seq<Obj>, rest: seq<Obj>, ended: seq<nat>, n: nat)
    requires Tied(slotOf, flight, ended, n) && multiset(got) + multiset(rest) == multiset(flight)
    ensures forall k :: 0 <= k < |flight| ==> flight[k] < |slotOf|
    ensures forall k :: 0 <= k < |got| ==> got[k] < |slotOf| && slotOf[got[k]] < n && slotOf[got[k]] !in ended
  {
    hide Tied;
    TiedDequeue(slotOf, flight, ended, n, got, rest);
    TiedTable(slotOf, flight, ended, n);
  }

  lemma TiedTable(slotOf: seq<nat>, flight: seq<Obj>, ended: seq<nat>, n: nat)
    requires Tied(slotOf, flight, ended, n)
    ensures forall k :: 0 <= k < |flight| ==> flight[k] < |slotOf|
  {
  }

  lemma MatchedStart(slotOf: seq<nat>, slotOf': seq<nat>, flight: seq<Obj>, added: seq<Obj>, h: History, t: nat)
    requires Matched(h) && Pointing(slotOf, flight, h)
    requires Repointed(slotOf, slotOf', flight, added, |h.accepted|)
    ensures Matched(WithAccepted(h, added, t)) && Pointing(slotOf', flight + added, WithAccepted(h, added, t))
  {
  }

  /** New ops point to the next slots, the ops in the device to the same as before. */
  ghost predicate Repointed(slotOf: seq<nat>, slotOf': seq<nat>, flight: seq<Obj>, added: seq<Obj>, n: nat)
  {
    && |slotOf'| == |slotOf|
    && (forall k :: 0 <= k < |flight| && flight[k] < |slotOf| ==> slotOf'[flight[k]] == slotOf[flight[k]])
    && forall k :: 0 <= k < |added| ==> added[k] < |slotOf'| && slotOf'[added[k]] == n + k
  }

  lemma MatchedFinish(slotOf: seq<nat>, flight: seq<Obj>, got: seq<Obj>, rest: seq<Obj>, h: History, t: nat)
    requires Matched(h) && Pointing(slotOf, flight, h)
    requires multiset(got) + multiset(rest) == multiset(flight) && NoDup(flight)
    ensures forall k :: 0 <= k < |got| ==> got[k] < |slotOf|
    ensures Matched(WithReturned(h, slotOf, got, t)) && Pointing(slotOf, rest, WithReturned(h, slotOf, got, t))
  {
    assert multiset(got + rest) == multiset(flight);
    NoDupCounts(flight);
    NoDupCounts(got + rest);
    SubNoDup(got + rest, flight);
    forall k | 0 <= k < |got| ensures got[k] in flight {
      assert (got + rest)[k] == got[k];
    }
    forall k | 0 <= k < |rest| ensures rest[k] in flight {
      assert (got + rest)[|got| + k] == rest[k];
    }
    forall i, j | 0 <= i < |got| && 0 <= j < |got| && i != j ensures got[i] != got[j] {
      assert (got + rest)[i] == got[i] && (got + rest)[j] == got[j];
    }
    forall i, k | 0 <= i < |got| && 0 <= k < |rest| ensures got[i] != rest[k] {
      assert (got + rest)[i] == got[i] && (got + rest)[|got| + k] == rest[k];
    }
  }

  lemma TimedStart(res: seq<OpResult>, res': seq<OpResult>, h: History, readings: seq<nat>, added: seq<Obj>, t: nat)
    requires Timed(res, h, readings) && |res'| == |res| && |h.accepted| + |added| <= |res| && 0 < t <= |readings|
    requires forall s :: 0 <= s < |h.accepted| ==> res'[s] == res[s]
    requires forall j :: 0 <= j < |h.ended| ==> h.ended[j] < |h.accepted|
    requires forall s :: |h.accepted| <= s < |h.accepted| + |added| ==> res'[s].tscStart == readings[t - 1]
    ensures Timed(res', WithAccepted(h, added, t), readings)
  {
  }

  lemma TimedFinish(res: seq<OpResult>, res': seq<OpResult>, h: History, readings: seq<nat>, slotOf: seq<nat>,
                    got: seq<Obj>, t: nat)
    requires Timed(res, h, readings) && t < |readings|
    requires forall k :: 0 <= k < |got| ==> got[k] < |slotOf| && slotOf[got[k]] < |res| && slotOf[got[k]] !in h.ended
    requires EndStamped(res, res', Slots(slotOf, got), readings[t])
    ensures Timed(res', WithReturned(h, slotOf, got, t), readings)
  {
    var done := Slots(slotOf, got);
    forall j | 0 <= j < |h.ended| ensures res'[h.ended[j]] == res[h.ended[j]] {
      assert h.ended[j] !in done;
    }
    forall k | 0 <= k < |got| ensures res'[slotOf[got[k]]].tscEnd == readings[t] {
      assert done[k] in done;
    }
  }

  class LatencyTest {
    const pool: Mempool
    const dev: CryptoDevice
    const ops: array<Obj>
    const processed: array<Obj>
    /** The result pointer behind every op of the pool. */
    const slotOf: array<nat>
    const res: array<OpResult>
    const totalOps: nat

    /** Slots finished so far, in order. */
    ghost var ended: seq<nat>
    /** Slots started so far. */
    var tscIdx: nat
    /** The device's logs when the run began. */
    ghost var acceptedBefore: seq<Obj>
    ghost var returnedBefore: seq<Obj>

    constructor (pool: Mempool, dev: CryptoDevice, maxBurst: nat, totalOps: nat)
      ensures this.pool == pool && this.dev == dev && this.totalOps == totalOps
      ensures ops.Length == processed.Length == maxBurst && ops != processed && slotOf != ops && slotOf != processed
      ensures slotOf.Length == pool.size && res.Length == totalOps
    {
      this.pool, this.dev, this.totalOps := pool, dev, totalOps;
      ops := new Obj[maxBurst](_ => 0);
      processed := new Obj[maxBurst](_ => 0);
      slotOf := new nat[pool.size](_ => 0);
      res := new OpResult[totalOps](_ => OpResult(0, 0));
      ended, tscIdx, acceptedBefore, returnedBefore := [], 0, [], [];
    }

    ghost predicate Shape()
    {
      && ops != processed && slotOf != ops && slotOf != processed
      && ops.Length == processed.Length && slotOf.Length == pool.size && res.Length == totalOps
    }

    /** What has happened in this run. */
    ghost function Log(): (h: History)
      reads this, dev
      requires |acceptedBefore| <= |dev.accepted| == |dev.acceptedAt|
      requires |returnedBefore| <= |dev.returned| == |dev.returnedAt|
    {
      var a, r := |acceptedBefore|, |returnedBefore|;
      History(dev.accepted[a..], dev.acceptedAt[a..], dev.returned[r..], dev.returnedAt[r..], ended)
    }

    /** The log of the run agrees with the slots and their stamps. */
    ghost predicate Recorded()
      reads this, dev, dev.clock, slotOf, res
    {
      && dev.Since(acceptedBefore, returnedBefore, tscIdx, |ended|)
      && Matched(Log()) && Pointing(slotOf[..], dev.inflight, Log()) && Timed(res[..], Log(), dev.clock.readings)
    }

    ghost predicate Inv()
      reads this, pool`free, dev, dev.clock, slotOf, res
    {
      && Shape() && tscIdx <= totalOps && dev.clock.now < 0x1_0000_0000_0000_0000
      && AllThere(pool, [], dev.inflight)
      && Tied(slotOf[..], dev.inflight, ended, tscIdx)
      && Stamped(res[..], ended, tscIdx, dev.clock.now)
      && Recorded()
    }

    /** The loop that stamps the accepted ops' slots and points the ops to them. */
    method StartSlots(enqd: nat, tscStart: nat, ghost flight: seq<Obj>)
      requires Shape() && tscIdx + enqd <= totalOps && enqd <= ops.Length
      requires Tied(slotOf[..], flight, ended, tscIdx) && Stamped(res[..], ended, tscIdx, dev.clock.now)
      requires tscStart <= dev.clock.now
      requires NoDup(ops[..enqd])
      requires forall k :: 0 <= k < enqd ==> ops[..enqd][k] < pool.size && ops[..enqd][k] !in flight
      modifies this`tscIdx, slotOf, res
      ensures tscIdx == old(tscIdx) + enqd
      ensures Tied(slotOf[..], flight + ops[..enqd], ended, tscIdx) && Stamped(res[..], ended, tscIdx, dev.clock.now)
      ensures forall s :: old(tscIdx) <= s < tscIdx ==> res[s].tscStart == tscStart
      ensures forall s :: 0 <= s < old(tscIdx) ==> res[s] == old(res[s])
      ensures Repointed(old(slotOf[..]), slotOf[..], flight, ops[..enqd], old(tscIdx))
    {
      hide Tied;
      ghost var added, n, before := ops[..enqd], tscIdx, slotOf[..];
      TiedTable(before, flight, ended, n);
      TiedFacts(before, flight, ended, n);
      var i := 0;
      while i < enqd
        modifies this`tscIdx, slotOf, res
        invariant 0 <= i <= enqd && tscIdx == n + i
        invariant Stamped(res[..], ended, tscIdx, dev.clock.now)
        invariant forall k :: 0 <= k < i ==> slotOf[added[k]] == n + k
        invariant forall s :: n <= s < tscIdx ==> res[s].tscStart == tscStart
        invariant forall s :: 0 <= s < n ==> res[s] == old(res[s])
        invariant forall k :: 0 <= k < |flight| ==> slotOf[flight[k]] == before[flight[k]]
      {
        assert ops[i] == added[i];
        assert tscIdx !in ended;
        res[tscIdx] := res[tscIdx].(tscStart := tscStart);
        slotOf[ops[i]] := tscIdx;
        tscIdx := tscIdx + 1;
        i := i + 1;
      }
      TiedEnqueue(before, slotOf[..], flight, ended, n, added);
    }

    /** store_timestamp. */
    method StoreTimestamp(op: Obj, timestamp: nat)
      requires Shape() && op < pool.size && slotOf[op] < totalOps
      modifies res
      ensures res[slotOf[op]] == old(res[slotOf[op]]).(tscEnd := timestamp)
      ensures forall s :: 0 <= s < totalOps && s != slotOf[op] ==> res[s] == old(res[s])
    {
      res[slotOf[op]] := res[slotOf[op]].(tscEnd := timestamp);
    }

    /** The stamping of the returned ops. */
    method FinishSlots(deqd: nat, tscEnd: nat, ghost flight: seq<Obj>)
      requires Shape() && deqd <= processed.Length && tscIdx <= totalOps
      requires Tied(slotOf[..], flight, ended, tscIdx) && Stamped(res[..], ended, tscIdx, dev.clock.now)
      requires tscEnd == dev.clock.now
      requires multiset(processed[..deqd]) + multiset(dev.inflight) == multiset(flight)
      modifies this`ended, res
      ensures Tied(slotOf[..], dev.inflight, ended, tscIdx) && Stamped(res[..], ended, tscIdx, dev.clock.now)
      ensures forall k :: 0 <= k < deqd ==> processed[..deqd][k] < |slotOf[..]|
      ensures forall k :: 0 <= k < deqd ==> slotOf[..][processed[..deqd][k]] !in old(ended)
      ensures ended == old(ended) + Slots(slotOf[..], processed[..deqd])
      ensures EndStamped(old(res[..]), res[..], Slots(slotOf[..], processed[..deqd]), tscEnd)
    {
      ghost var got := processed[..deqd];
      ghost var all := ended;
      TiedDequeue(slotOf[..], flight, ended, tscIdx, got, dev.inflight);
      var i := 0;
      while i < deqd
        modifies this`ended, res
        invariant 0 <= i <= deqd
        invariant ended == all + Slots(slotOf[..], got[..i])
        invariant Stamped(res[..], ended, tscIdx, dev.clock.now)
        invariant EndStamped(old(res[..]), res[..], Slots(slotOf[..], got[..i]), tscEnd)
      {
        assert processed[i] == got[i];
        StoreTimestamp(processed[i], tscEnd);
        SlotsConcat(slotOf[..], got[..i], [got[i]]);
        assert got[..i + 1] == got[..i] + [got[i]];
        ended := ended + [slotOf[got[i]]];
        assert Slots(slotOf[..], [got[i]]) == [slotOf[got[i]]];
        i := i + 1;
      }
      assert got[..i] == got;
      assert ended[|all|..] == Slots(slotOf[..], got);
    }

    /** The enqueue and the dequeue call of a round: ops just accepted may come back at once. */
    method Exchange(burst: nat, burstSz: nat) returns (enqd: nat, deqd: nat, ghost flight: seq<Obj>)
      requires Shape() && 0 < burstSz <= burst <= ops.Length
      requires AllThere(pool, ops[..burstSz], dev.inflight) && dev.Valid()
      modifies dev, processed
      ensures enqd <= burstSz && deqd <= burst && flight == old(dev.inflight)
      ensures dev.calls == old(dev.calls) + [Enq(burstSz, enqd), Deq(burst, deqd)]
      ensures Exchanged(old(dev.accepted), old(dev.returned), old(dev.acceptedAt), old(dev.returnedAt), ops[..enqd],
                        processed[..deqd], |dev.clock.readings|)
      ensures multiset(processed[..deqd]) + multiset(dev.inflight) == multiset(flight + ops[..enqd])
      ensures NoDup(ops[..enqd])
      ensures forall k :: 0 <= k < enqd ==> ops[..enqd][k] < pool.size && ops[..enqd][k] !in flight
      ensures multiset(pool.free) + multiset(ops[enqd..burstSz]) + multiset(processed[..deqd]) + multiset(dev.inflight)
           == pool.Objects()
      ensures dev.stalls <= old(dev.stalls) && (enqd == 0 ==> dev.stalls < old(dev.stalls))
    {
      hide AllThere;
      flight := dev.inflight;
      ghost var staged := ops[..burstSz];
      enqd := dev.EnqueueBurst(ops, 0, burstSz);
      assert ops[0..0 + enqd] == staged[..enqd];
      deqd := dev.DequeueBurst(processed, 0, burst);
      assert processed[0..0 + deqd] == processed[..deqd];
      ExchangeKeeps(pool, staged, enqd, flight, dev.inflight, processed[..deqd]);
      assert staged[..enqd] == ops[..enqd] && staged[enqd..] == ops[enqd..burstSz];
    }

    /** The device's logs have grown by `added` and `got`, at the `t`-th reading of the clock. */
    ghost predicate Exchanged(a: seq<Obj>, r: seq<Obj>, at: seq<nat>, rt: seq<nat>, added: seq<Obj>, got: seq<Obj>,
                              t: nat)
      reads dev
    {
      && dev.Valid() && dev.accepted == a + added && dev.returned == r + got
      && dev.acceptedAt == at + Times(t, |added|) && dev.returnedAt == rt + Times(t, |got|)
    }

    /** What the device's logs say about this run. */
    ghost predicate IsLog(h: History, a: seq<Obj>, r: seq<Obj>, at: seq<nat>, rt: seq<nat>)
      reads this
    {
      && h.ended == ended
      && acceptedBefore <= a && |a| == |at| && returnedBefore <= r && |r| == |rt| == |returnedBefore| + |ended|
      && h.accepted == a[|acceptedBefore|..] && h.acceptedAt == at[|acceptedBefore|..]
      && h.returned == r[|returnedBefore|..] && h.returnedAt == rt[|returnedBefore|..]
    }

    /** The log of the run is `h` with `got` returned at the `t`-th reading, but not yet finished. */
    ghost predicate Returned(h: History, got: seq<Obj>, t: nat)
      reads this, dev
    {
      && dev.Since(acceptedBefore, returnedBefore, tscIdx, |ended| + |got|)
      && Log() == h.(returned := h.returned + got, returnedAt := h.returnedAt + Times(t, |got|))
    }

    /** The log after the exchange. */
    lemma LogGrows(h: History, a: seq<Obj>, r: seq<Obj>, at: seq<nat>, rt: seq<nat>, added: seq<Obj>,
                   got: seq<Obj>, t: nat)
      requires Exchanged(a, r, at, rt, added, got, t) && IsLog(h, a, r, at, rt)
      requires tscIdx == |h.accepted| + |added|
      ensures Returned(WithAccepted(h, added, t), got, t)
    {
      var n, m := |acceptedBefore|, |returnedBefore|;
      assert dev.accepted[n..] == a[n..] + added;
      assert dev.acceptedAt[n..] == at[n..] + Times(t, |added|);
      assert dev.returned[m..] == r[m..] + got;
      assert dev.returnedAt[m..] == rt[m..] + Times(t, |got|);
    }

    /** The stamping of the returned ops, with the log. */
    method Finish(deqd: nat, tscEnd: nat, ghost flight: seq<Obj>, ghost h: History, ghost t: nat)
      requires Shape() && deqd <= processed.Length && tscIdx <= totalOps && |h.accepted| == tscIdx
      requires Tied(slotOf[..], flight, ended, tscIdx) && Stamped(res[..], ended, tscIdx, dev.clock.now)
      requires tscEnd == dev.clock.now && t < |dev.clock.readings| && dev.clock.readings[t] == tscEnd
      requires multiset(processed[..deqd]) + multiset(dev.inflight) == multiset(flight) && h.ended == ended
      requires Matched(h) && Pointing(slotOf[..], flight, h) && Timed(res[..], h, dev.clock.readings)
      requires Returned(h, processed[..deqd], t)
      modifies this`ended, res
      ensures Tied(slotOf[..], dev.inflight, ended, tscIdx) && Stamped(res[..], ended, tscIdx, dev.clock.now)
      ensures |ended| == |old(ended)| + deqd && Recorded()
    {
      hide Tied, Stamped, Matched, Pointing, Timed, EndStamped, Times, Balanced;
      ghost var got, slots, before := processed[..deqd], slotOf[..], res[..];
      TiedTable(slots, flight, ended, tscIdx);
      TiedFacts(slots, flight, ended, tscIdx);
      DistinctOps(slots, flight);
      SlotsInTable(slots, flight, got, dev.inflight, ended, tscIdx);
      MatchedFinish(slots, flight, got, dev.inflight, h, t);
      FinishSlots(deqd, tscEnd, flight);
      TimedFinish(before, res[..], h, dev.clock.readings, slots, got, t);
      assert Log() == WithReturned(h, slots, got, t);
    }

    static lemma ExchangeKeeps(pool: Mempool, staged: seq<Obj>, enqd: nat, flight: seq<Obj>, flight': seq<Obj>,
                               got: seq<Obj>)
      requires AllThere(pool, staged, flight) && enqd <= |staged|
      requires multiset(got) + multiset(flight') == multiset(flight + staged[..enqd])
      ensures NoDup(staged[..enqd])
      ensures forall k :: 0 <= k < enqd ==> staged[..enqd][k] < pool.size && staged[..enqd][k] !in flight
      ensures multiset(pool.free) + multiset(staged[enqd..]) + multiset(got) + multiset(flight') == pool.Objects()
    {
      Sizes(pool, staged, flight);
      assert multiset(flight + staged[..enqd]) == multiset(flight) + multiset(staged[..enqd]);
      assert staged == staged[..enqd] + staged[enqd..];
      var free, taken, left := multiset(pool.free), multiset(staged[..enqd]), multiset(staged[enqd..]);
      assert free + left + multiset(got) + multiset(flight') == free + left + (multiset(got) + multiset(flight'));
      assert free + left + (multiset(flight) + taken) == free + (taken + left) + multiset(flight);
      forall k | 0 <= k < enqd ensures staged[..enqd][k] < pool.size && staged[..enqd][k] !in flight {
        assert staged[..enqd][k] == staged[k];
        assert staged[k] in staged;
      }
    }

    /** One round: a burst goes to the device, finished ops come back, rejected ones are freed. */
    method Round(burst: nat) returns (ok: bool, enqd: nat, deqd: nat)
      requires Inv() && tscIdx < totalOps && 0 < burst <= ops.Length
      modifies this`ended, this`tscIdx, pool`free, dev, dev.clock, ops, processed, slotOf, res
      ensures ok ==> Inv() && tscIdx == old(tscIdx) + enqd && |ended| == |old(ended)| + deqd
      ensures ok ==> dev.calls == old(dev.calls) + [Enq(Min(burst, totalOps - old(tscIdx)), enqd), Deq(burst, deqd)]
      ensures ok && enqd == 0 ==> dev.stalls < old(dev.stalls)
      ensures pool.size >= totalOps ==> ok
      ensures dev.clock.now < 0x1_0000_0000_0000_0000
    {
      hide Tied, Stamped, AllThere, Matched, Pointing, Timed, Balanced, Slots;
      enqd, deqd := 0, 0;
      var burstSz := if tscIdx + burst <= totalOps then burst else totalOps - tscIdx;
      ok := Take(burstSz);
      if !ok {
        return;
      }
      var tscStart := dev.clock.Read();
      StampedLater(res[..], ended, tscIdx, old(dev.clock.now), dev.clock.now);
      ghost var h, t := Log(), |dev.clock.readings|;
      ghost var a, r, at, rt := dev.accepted, dev.returned, dev.acceptedAt, dev.returnedAt;
      TimedLater(res[..], h, old(dev.clock.readings), tscStart);
      ghost var flight;
      enqd, deqd, flight := Exchange(burst, burstSz);
      var tscEnd := dev.clock.Read();
      StampedLater(res[..], ended, tscIdx, tscStart, dev.clock.now);
      TimedLater(res[..], h, old(dev.clock.readings) + [tscStart], tscEnd);
      Settle(burstSz, enqd, deqd, tscStart, tscEnd, flight, h, a, r, at, rt, t);
    }

    /** The back half of a round: rejected ops are freed, slots stamped, returned ops freed. */
    method Settle(burstSz: nat, enqd: nat, deqd: nat, tscStart: nat, tscEnd: nat, ghost flight: seq<Obj>,
                  ghost h: History, ghost a: seq<Obj>, ghost r: seq<Obj>, ghost at: seq<nat>, ghost rt: seq<nat>,
                  ghost t: nat)
      requires Shape() && enqd <= burstSz <= ops.Length && deqd <= processed.Length && tscIdx + enqd <= totalOps
      requires multiset(pool.free) + multiset(ops[enqd..burstSz]) + multiset(processed[..deqd]) + multiset(dev.inflight)
            == pool.Objects()
      requires multiset(processed[..deqd]) + multiset(dev.inflight) == multiset(flight + ops[..enqd])
      requires NoDup(ops[..enqd])
      requires forall k :: 0 <= k < enqd ==> ops[..enqd][k] < pool.size && ops[..enqd][k] !in flight
      requires Tied(slotOf[..], flight, ended, tscIdx) && Stamped(res[..], ended, tscIdx, dev.clock.now)
      requires tscStart <= dev.clock.now == tscEnd < 0x1_0000_0000_0000_0000
      requires Matched(h) && Pointing(slotOf[..], flight, h) && Timed(res[..], h, dev.clock.readings)
      requires |h.accepted| == tscIdx && IsLog(h, a, r, at, rt)
      requires Exchanged(a, r, at, rt, ops[..enqd], processed[..deqd], t)
      requires 0 < t < |dev.clock.readings| && dev.clock.readings[t - 1] == tscStart && dev.clock.readings[t] == tscEnd
      modifies this`ended, this`tscIdx, pool`free, slotOf, res
      ensures Inv() && tscIdx == old(tscIdx) + enqd && |ended| == |old(ended)| + deqd
    {
      hide Tied, Stamped, AllThere, Matched, Pointing, Timed, Balanced, Slots;
      ghost var kept, rejected, got := pool.free, ops[enqd..burstSz], processed[..deqd];
      if enqd != burstSz {
        pool.PutBulk(ops, enqd, burstSz - enqd);
        assert ops[enqd..enqd + (burstSz - enqd)] == rejected;
      }
      assert pool.free == kept + rejected;
      Start(enqd, tscStart, flight, h, t);
      LogGrows(h, a, r, at, rt, ops[..enqd], got, t);
      Finish(deqd, tscEnd, flight + ops[..enqd], WithAccepted(h, ops[..enqd], t), t);
      if deqd > 0 {
        pool.PutBulk(processed, 0, deqd);
        assert processed[0..0 + deqd] == got;
      }
      assert pool.free == kept + rejected + got;
      BackInPool(pool, kept, rejected, got, dev.inflight);
    }

    /** The start of the accepted ops' slots, with the log. */
    method Start(enqd: nat, tscStart: nat, ghost flight: seq<Obj>, ghost h: History, ghost t: nat)
      requires Shape() && tscIdx + enqd <= totalOps && enqd <= ops.Length
      requires Tied(slotOf[..], flight, ended, tscIdx) && Stamped(res[..], ended, tscIdx, dev.clock.now)
      requires tscStart <= dev.clock.now && |h.accepted| == tscIdx
      requires NoDup(ops[..enqd])
      requires forall k :: 0 <= k < enqd ==> ops[..enqd][k] < pool.size && ops[..enqd][k] !in flight
      requires Matched(h) && Pointing(slotOf[..], flight, h) && Timed(res[..], h, dev.clock.readings)
      requires 0 < t <= |dev.clock.readings| && dev.clock.readings[t - 1] == tscStart
      modifies this`tscIdx, slotOf, res
      ensures tscIdx == old(tscIdx) + enqd
      ensures Tied(slotOf[..], flight + ops[..enqd], ended, tscIdx) && Stamped(res[..], ended, tscIdx, dev.clock.now)
      ensures Matched(WithAccepted(h, ops[..enqd], t))
      ensures Pointing(slotOf[..], flight + ops[..enqd], WithAccepted(h, ops[..enqd], t))
      ensures Timed(res[..], WithAccepted(h, ops[..enqd], t), dev.clock.readings)
    {
      hide Tied, Stamped, Pointing, Timed, Times, Repointed;
      ghost var slots, before := slotOf[..], res[..];
      StartSlots(enqd, tscStart, flight);
      MatchedStart(slots, slotOf[..], flight, ops[..enqd], h, t);
      TimedStart(before, res[..], h, dev.clock.readings, ops[..enqd], t);
    }

    static lemma BackInPool(pool: Mempool, kept: seq<Obj>, rejected: seq<Obj>, got: seq<Obj>, flight: seq<Obj>)
      requires pool.free == kept + rejected + got
      requires multiset(kept) + multiset(rejected) + multiset(got) + multiset(flight) == pool.Objects()
      ensures AllThere(pool, [], flight)
    {
    }

    /** The ops of a burst come from the pool, which suffices if it has an op for every slot. */
    method Take(burstSz: nat) returns (ok: bool)
      requires Inv() && burstSz <= ops.Length && tscIdx + burstSz <= totalOps
      modifies pool`free, ops
      ensures ok ==> AllThere(pool, ops[..burstSz], dev.inflight)
      ensures pool.size >= totalOps ==> ok
    {
      Sizes(pool, [], dev.inflight);
      TiedFacts(slotOf[..], dev.inflight, ended, tscIdx);
      ok := pool.GetBulk(ops, 0, burstSz);
      assert ops[0..0 + burstSz] == ops[..burstSz];
    }

    /** "Dequeue any operations still in the crypto device". */
    method Drain(burst: nat, deqd: nat, ghost c: seq<Call>)
      requires Midway(c, dev.calls, totalOps, burst, totalOps, deqd, true)
      requires Inv() && tscIdx == totalOps && 0 < burst <= processed.Length && deqd == |ended|
      modifies this`ended, pool`free, dev, dev.clock, processed, res
      ensures Inv() && dev.inflight == [] && tscIdx == totalOps
      ensures Midway(c, dev.calls, totalOps, burst, totalOps, totalOps, true)
    {
      hide Midway, Inv;
      AllStarted();
      var deqdTot := deqd;
      while deqdTot < totalOps
        invariant Inv() && |ended| == deqdTot && deqdTot + |dev.inflight| == totalOps
        invariant Midway(c, dev.calls, totalOps, burst, totalOps, deqdTot, true)
        decreases totalOps - deqdTot, dev.stalls
      {
        ghost var calls := dev.calls;
        var got := Poll(burst);
        MidwayDeq(c, calls, totalOps, burst, totalOps, deqdTot, true, got);
        AllStarted();
        deqdTot := deqdTot + got;
      }
    }

    lemma AllStarted()
      requires Inv()
      ensures |ended| + |dev.inflight| == tscIdx
    {
      TiedFacts(slotOf[..], dev.inflight, ended, tscIdx);
    }

    /** One poll of the draining loop. */
    method Poll(burst: nat) returns (deqd: nat)
      requires Inv() && 0 < burst <= processed.Length
      modifies this`ended, pool`free, dev, dev.clock, processed, res
      ensures Inv() && |ended| == |old(ended)| + deqd && dev.calls == old(dev.calls) + [Deq(burst, deqd)]
      ensures dev.stalls <= old(dev.stalls)
      ensures deqd == 0 && old(dev.inflight) != [] ==> dev.stalls < old(dev.stalls)
    {
      hide Tied, Stamped, AllThere, Matched, Pointing, Timed, Balanced, Slots;
      ghost var flight, kept, h, t := dev.inflight, pool.free, Log(), |dev.clock.readings|;
      ghost var a, r, at, rt := dev.accepted, dev.returned, dev.acceptedAt, dev.returnedAt;
      deqd := dev.DequeueBurst(processed, 0, burst);
      ghost var got := processed[..deqd];
      assert processed[0..0 + deqd] == got;
      PollKeeps(pool, flight, dev.inflight, got);
      assert Exchanged(a, r, at, rt, [], got, t);
      var tscEnd := dev.clock.Read();
      StampedLater(res[..], ended, tscIdx, old(dev.clock.now), dev.clock.now);
      TimedLater(res[..], h, old(dev.clock.readings), tscEnd);
      LogGrows(h, a, r, at, rt, [], got, t);
      assert WithAccepted(h, [], t) == h;
      Finish(deqd, tscEnd, flight, h, t);
      if deqd != 0 {
        pool.PutBulk(processed, 0, deqd);
        assert processed[0..0 + deqd] == got;
      }
      assert pool.free == kept + [] + got;
      BackInPool(pool, kept, [], got, dev.inflight);
    }

    static lemma PollKeeps(pool: Mempool, flight: seq<Obj>, flight': seq<Obj>, got: seq<Obj>)
      requires AllThere(pool, [], flight) && multiset(got) + multiset(flight') == multiset(flight)
      ensures multiset(pool.free) + multiset([]) + multiset(got) + multiset(flight') == pool.Objects()
    {
      var none: multiset<Obj> := multiset([]);
      assert multiset(pool.free) + none + multiset(got) + multiset(flight')
          == multiset(pool.free) + none + (multiset(got) + multiset(flight'));
    }

    /** The last loop: total, least and greatest duration. */
    method Summarize() returns (total: nat, least: nat, most: nat)
      requires tscIdx == totalOps == res.Length
      requires forall s :: 0 <= s < totalOps ==> res[s].tscStart <= res[s].tscEnd < 0x1_0000_0000_0000_0000
      ensures total == Sum(Durations(res[..]))
      ensures forall s :: 0 <= s < totalOps ==> least <= Durations(res[..])[s] <= most
      ensures totalOps > 0 ==> least in Durations(res[..]) && most in Durations(res[..])
    {
      hide Sum;
      ghost var durations := Durations(res[..]);
      NoSum();
      assert durations[..0] == [];
      total, least, most := 0, 0xFFFF_FFFF_FFFF_FFFF, 0;
      var i := 0;
      while i < tscIdx
        invariant 0 <= i <= tscIdx
        invariant total == Sum(durations[..i])
        invariant forall s :: 0 <= s < i ==> least <= durations[s] <= most
        invariant if i == 0 then least == 0xFFFF_FFFF_FFFF_FFFF && most == 0
                  else least in durations[..i] && most in durations[..i]
      {
        var d := res[i].tscEnd - res[i].tscStart;
        most := Max(d, most);
        least := Min(d, least);
        total := total + d;
        SumMore(durations[..i], d);
        assert durations[..i + 1] == durations[..i] + [d];
        i := i + 1;
      }
      assert durations[..i] == durations;
    }

    ghost predicate Whole()
      reads pool`free, dev
    {
      multiset(pool.free) == pool.Objects() && dev.inflight == [] && dev.Valid()
    }

    /**
     * The run for one burst size: the device accepts `totalOps` ops and returns the same ops.
     * The k-th op accepted starts slot k, with the time read last before, and its return
     * finishes that slot, with the time read next. Every slot is finished once, not before its
     * start, and the reported average lies between the reported extremes.
     */
    method RunBurstSize(burst: nat) returns (ok: bool, least: nat, avg: nat, most: nat)
      requires Shape() && Whole() && totalOps > 0 && 0 < burst <= ops.Length
      requires dev.clock.now < 0x1_0000_0000_0000_0000
      modifies this, pool`free, dev, dev.clock, ops, processed, slotOf, res
      ensures ok ==> Whole() && tscIdx == totalOps && RunLogged(old(dev.accepted), old(dev.returned))
      ensures ok ==> Midway(old(dev.calls), dev.calls, totalOps, burst, totalOps, totalOps, true)
      ensures ok ==> multiset(ended) == multiset(Range(0, totalOps))
      ensures ok ==> forall s :: 0 <= s < totalOps ==> res[s].tscStart <= res[s].tscEnd
      ensures ok ==> least <= avg <= most && avg == Sum(Durations(res[..])) / totalOps
      ensures ok ==> forall s :: 0 <= s < totalOps ==> least <= Durations(res[..])[s] <= most
      ensures pool.size >= totalOps ==> ok
      ensures dev.clock.now < 0x1_0000_0000_0000_0000
    {
      hide RunLogged, Sum, Midway;
      least, avg, most := 0, 0, 0;
      ok := Exercise(burst);
      if !ok {
        return;
      }
      var total;
      total, least, most := Summarize();
      avg := total / tscIdx;
      AverageBetween(Durations(res[..]), least, most);
    }

    /** cperf_latency_test_runner: one run after the other for the burst sizes asked for. */
    method Run(bursts: seq<nat>) returns (ok: bool, ghost runs: seq<seq<Call>>)
      requires Shape() && Whole() && totalOps > 0 && dev.clock.now < 0x1_0000_0000_0000_0000
      requires forall i :: 0 <= i < |bursts| ==> 0 < bursts[i] <= ops.Length
      modifies this, pool`free, dev, dev.clock, ops, processed, slotOf, res
      ensures ok ==> Whole() && dev.Exercised(old(dev.accepted), old(dev.returned), |bursts| * totalOps)
      ensures ok && bursts != [] ==> tscIdx == totalOps && multiset(ended) == multiset(Range(0, totalOps))
      ensures ok && bursts != [] ==> LastRunLogged()
      ensures ok ==> dev.calls == old(dev.calls) + Concat(runs) && RunsOf(runs, totalOps, bursts)
      ensures pool.size >= totalOps ==> ok
    {
      hide CryptoDevice.Valid, RunLogged, Sum, Range, Midway, Concat, RunsOf;
      dev.NothingInside();
      ok, runs := true, [];
      NoRuns(totalOps);
      assert bursts[..0] == [];
      ghost var total := 0;
      for i := 0 to |bursts|
        invariant ok && Whole() && total == i * totalOps && dev.clock.now < 0x1_0000_0000_0000_0000
        invariant dev.Since(old(dev.accepted), old(dev.returned), total, total)
        invariant i > 0 ==> tscIdx == totalOps && multiset(ended) == multiset(Range(0, totalOps)) && LastRunLogged()
        invariant dev.calls == old(dev.calls) + Concat(runs) && RunsOf(runs, totalOps, bursts[..i])
      {
        ghost var a, r, c := dev.accepted, dev.returned, dev.calls;
        var least, avg, most;
        ok, least, avg, most := RunBurstSize(bursts[i]);
        if !ok {
          return;
        }
        RunLoggedFacts(a, r);
        dev.SinceMore(old(dev.accepted), old(dev.returned), a, r, total, total, totalOps);
        total := total + totalOps;
        runs := OneRunMore(old(dev.calls), c, dev.calls, runs, totalOps, bursts, i);
      }
      assert bursts[..|bursts|] == bursts;
      dev.AllBack(old(dev.accepted), old(dev.returned), total);
    }

    /** The log of the last run. */
    ghost predicate LastRunLogged()
      reads this, dev, dev.clock, res
    {
      RunLogged(acceptedBefore, returnedBefore)
    }

    lemma RunLoggedFacts(a: seq<Obj>, r: seq<Obj>)
      requires RunLogged(a, r)
      ensures dev.Exercised(a, r, totalOps) && LastRunLogged()
    {
    }

    /** The run since the logs were `a` and `r`, all its slots finished. */
    ghost predicate RunLogged(a: seq<Obj>, r: seq<Obj>)
      reads this, dev, dev.clock, res
    {
      && acceptedBefore == a && returnedBefore == r && dev.Exercised(a, r, totalOps)
      && Matched(Log()) && Timed(res[..], Log(), dev.clock.readings)
    }

    /** The two loops of the run, before the results are summarized. */
    method Exercise(burst: nat) returns (ok: bool)
      requires Shape() && Whole() && 0 < burst <= ops.Length
      requires dev.clock.now < 0x1_0000_0000_0000_0000
      modifies this, pool`free, dev, dev.clock, ops, processed, slotOf, res
      ensures ok ==> Whole() && tscIdx == totalOps && RunLogged(old(dev.accepted), old(dev.returned))
      ensures ok ==> Midway(old(dev.calls), dev.calls, totalOps, burst, totalOps, totalOps, true)
      ensures ok ==> multiset(ended) == multiset(Range(0, totalOps))
      ensures ok ==> forall s :: 0 <= s < totalOps ==> res[s].tscStart <= res[s].tscEnd < 0x1_0000_0000_0000_0000
      ensures pool.size >= totalOps ==> ok
      ensures dev.clock.now < 0x1_0000_0000_0000_0000
    {
      hide Tied, Stamped, AllThere, Matched, Pointing, Timed, Midway;
      dev.NothingInside();
      ghost var c := dev.calls;
      MidwayStart(c, totalOps, burst);
      ended, tscIdx, acceptedBefore, returnedBefore := [], 0, dev.accepted, dev.returned;
      AtStart();
      var deqdTot;
      ok, deqdTot := Feed(burst, c);
      if !ok {
        return;
      }
      Drain(burst, deqdTot, c);
      AllFinished();
      dev.AllBack(acceptedBefore, returnedBefore, totalOps);
    }

    /** The enqueue loop. */
    method Feed(burst: nat, ghost c: seq<Call>) returns (ok: bool, deqdTot: nat)
      requires Midway(c, dev.calls, totalOps, burst, 0, 0, true)
      requires Inv() && tscIdx == 0 && ended == [] && 0 < burst <= ops.Length
      modifies this`ended, this`tscIdx, pool`free, dev, dev.clock, ops, processed, slotOf, res
      ensures ok ==> Inv() && tscIdx == totalOps && deqdTot == |ended|
      ensures ok ==> Midway(c, dev.calls, totalOps, burst, totalOps, deqdTot, true)
      ensures pool.size >= totalOps ==> ok
      ensures dev.clock.now < 0x1_0000_0000_0000_0000
    {
      hide Tied, Stamped, AllThere, Midway;
      ok, deqdTot := true, 0;
      while tscIdx < totalOps
        invariant ok && Inv() && deqdTot == |ended| && (tscIdx == 0 ==> deqdTot == 0)
        invariant Midway(c, dev.calls, totalOps, burst, tscIdx, deqdTot, true)
        decreases totalOps - tscIdx, dev.stalls
      {
        ghost var calls, idx := dev.calls, tscIdx;
        var enqd, deqd;
        ok, enqd, deqd := Round(burst);
        if !ok {
          return;
        }
        MidwayBoth(c, calls, totalOps, burst, idx, deqdTot, enqd, deqd);
        TiedSize(slotOf[..], dev.inflight, ended, tscIdx);
        deqdTot := deqdTot + deqd;
      }
    }

    lemma AtStart()
      requires Shape() && Whole() && ended == [] && tscIdx == 0 && dev.clock.now < 0x1_0000_0000_0000_0000
      requires acceptedBefore == dev.accepted && returnedBefore == dev.returned
      ensures Inv()
    {
      assert Slots(slotOf[..], []) == [] && Range(0, 0) == [];
    }

    lemma AllFinished()
      requires Inv() && dev.inflight == [] && tscIdx == totalOps
      ensures |ended| == totalOps
      ensures Whole() && multiset(ended) == multiset(Range(0, totalOps))
      ensures forall s :: 0 <= s < totalOps ==> res[s].tscStart <= res[s].tscEnd < 0x1_0000_0000_0000_0000
    {
      TiedFacts(slotOf[..], dev.inflight, ended, tscIdx);
      assert Slots(slotOf[..], []) == [];
      forall s | 0 <= s < totalOps ensures s in ended {
        assert Range(0, totalOps)[s] == s;
        assert s in multiset(Range(0, totalOps));
      }
    }
  }

  ghost function Durations(res: seq<OpResult>): (d: seq<nat>)
    ensures |d| == |res|
    ensures forall s :: 0 <= s < |res| ==>
      d[s] == if res[s].tscStart <= res[s].tscEnd then res[s].tscEnd - res[s].tscStart else 0
  {
    seq(|res|, s requires 0 <= s < |res| =>
      if res[s].tscStart <= res[s].tscEnd then res[s].tscEnd - res[s].tscStart else 0)
  }

  lemma NoSum()
    ensures Sum([]) == 0
  {
  }

  lemma SumMore(d: seq<nat>, n: nat)
    ensures Sum(d + [n]) == Sum(d) + n
  {
    assert (d + [n])[..|d|] == d;
  }

  /** A truncated average lies between the extremes. */
  lemma AverageBetween(d: seq<nat>, least: nat, most: nat)
    requires d != [] && forall s :: 0 <= s < |d| ==> least <= d[s] <= most
    ensures least <= Sum(d) / |d| <= most
  {
    SumBetween(d, least, most);
    DivBetween(Sum(d), |d|, least, most);
  }

  lemma {:induction false} SumBetween(d: seq<nat>, least: nat, most: nat)
    requires forall s :: 0 <= s < |d| ==> least <= d[s] <= most
    ensures least * |d| <= Sum(d) <= most * |d|
  {
    if d != [] {
      var last := |d| - 1;
      SumBetween(d[..last], least, most);
      NextMultiple(last, least);
      NextMultiple(last, most);
    }
  }

  lemma DivBetween(total: nat, n: nat, least: nat, most: nat)
    requires n > 0 && least * n <= total <= most * n
    ensures least <= total / n <= most
  {
    var q := total / n;
    assert total == q * n + total % n;
    assert least < q + 1 by {
      MulCancel(least, q + 1, n);
    }
    assert q < most + 1 by {
      MulCancel(q, most + 1, n);
    }
  }
}
