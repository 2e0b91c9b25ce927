/**
 * The assignment of forwarding streams to cores in test-flow-perf (init_lcore_info in
 * test-flow-perf/main.c).
 */
module FlowStreams {
  import opened Util

  const MAX_STREAMS := 64

  datatype Mode = Unused | Pkt | Stats

  /** -1 everywhere stands for a stream that is not set. */
  datatype Stream = Stream(rxPort: int, rxQueue: int, txPort: int, txQueue: int)

  const UNSET := Stream(-1, -1, -1, -1)

  /** The number of enabled cores before core `c`. */
  ghost function Rank(enabled: seq<bool>, c: nat): (r: nat)
    requires c <= |enabled|
  {
    if c == 0 then 0 else Rank(enabled, c - 1) + if enabled[c - 1] then 1 else 0
  }

  lemma {:induction false} RankGrows(enabled: seq<bool>, a: nat, b: nat)
    requires a <= b <= |enabled|
    ensures Rank(enabled, a) <= Rank(enabled, b)
    ensures (forall c :: a <= c < b ==> !enabled[c]) ==> Rank(enabled, a) == Rank(enabled, b)
    ensures a < b && enabled[a] ==> Rank(enabled, a) < Rank(enabled, b)
    decreases b
  {
    if a < b {
      RankGrows(enabled, a, b - 1);
    }
  }

  /** Different enabled cores have different ranks. */
  lemma RankIsUnique(enabled: seq<bool>, a: nat, b: nat)
    requires a < |enabled| && b < |enabled| && enabled[a] && enabled[b]
    requires Rank(enabled, a) == Rank(enabled, b)
    ensures a == b
  {
    if a < b {
      RankGrows(enabled, a, b);
    } else if b < a {
      RankGrows(enabled, b, a);
    }
  }

  /** streams_nb of worker `w` when `total` streams are spread over `workers` cores. */
  ghost function Share(total: nat, workers: nat, w: nat): (n: nat)
    requires workers > 0
  {
    if workers >= total then 1 else total / workers + if w < total % workers then 1 else 0
  }

  /** The streams of the workers before `w`. */
  ghost function Before(total: nat, workers: nat, w: nat): (n: nat)
    requires workers > 0
  {
    if w == 0 then 0 else Before(total, workers, w - 1) + Share(total, workers, w - 1)
  }

  lemma {:induction false} BeforeClosed(total: nat, workers: nat, w: nat)
    requires workers > 0 && w <= workers
    ensures workers >= total ==> Before(total, workers, w) == w
    ensures workers < total ==> Before(total, workers, w) == w * (total / workers) + Min(w, total % workers)
  {
    if w > 0 {
      BeforeClosed(total, workers, w - 1);
      assert w * (total / workers) == (w - 1) * (total / workers) + total / workers;
    }
  }

  /** All workers together have room for all streams, and no more if there are enough of them. */
  lemma AllShares(total: nat, workers: nat)
    requires workers > 0
    ensures Before(total, workers, workers) >= total
    ensures workers < total ==> Before(total, workers, workers) == total
    ensures forall w :: 0 <= w < workers ==> Share(total, workers, w) > 0
  {
    DivParts(total, workers);
    BeforeClosed(total, workers, workers);
  }

  lemma DivParts(total: nat, workers: nat)
    requires workers > 0
    ensures total == workers * (total / workers) + total % workers && total % workers < workers
    ensures workers <= total ==> total / workers > 0
  {
    var q := total / workers;
    assert total == workers * q + total % workers;
    assert (q + 1) * workers == workers * q + workers;
    if workers <= total {
      MulCancel(1, q + 1, workers);
    }
  }

  lemma {:induction false} BeforeGrows(total: nat, workers: nat, v: nat, w: nat)
    requires workers > 0 && v <= w
    ensures Before(total, workers, v) <= Before(total, workers, w)
    ensures v < w ==> Before(total, workers, v) + Share(total, workers, v) <= Before(total, workers, w)
    decreases w
  {
    if v < w {
      BeforeGrows(total, workers, v, w - 1);
    }
  }

  /** Worker `w` holds stream `s` in its slot `j`. */
  ghost predicate Holds(total: nat, workers: nat, w: nat, j: nat, s: nat)
    requires workers > 0
  {
    w < workers && j < Share(total, workers, w) && s == Before(total, workers, w) + j && s < total
  }

  /** Every stream has a place. */
  lemma {:induction false} FindPlace(total: nat, workers: nat, s: nat, w: nat) returns (v: nat, j: nat)
    requires 0 < w <= workers && s < total && s < Before(total, workers, w)
    ensures Holds(total, workers, v, j, s)
    decreases w
  {
    if s < Before(total, workers, w - 1) {
      v, j := FindPlace(total, workers, s, w - 1);
    } else {
      v, j := w - 1, s - Before(total, workers, w - 1);
    }
  }

  /** Exactly one. */
  lemma OnePlace(total: nat, workers: nat, s: nat)
    requires workers > 0 && s < total
    ensures exists w, j :: Holds(total, workers, w, j, s)
    ensures forall v, i, w, j ::
              Holds(total, workers, v, i, s) && Holds(total, workers, w, j, s) ==> v == w && i == j
  {
    AllShares(total, workers);
    var w, j := FindPlace(total, workers, s, workers);
    forall v, i, w', j' | Holds(total, workers, v, i, s) && Holds(total, workers, w', j', s)
      ensures v == w' && i == j'
    {
      if v < w' {
        BeforeGrows(total, workers, v, w');
      } else if w' < v {
        BeforeGrows(total, workers, w', v);
      }
    }
  }

  /** A worker with any stream has all of its share, and loads differ by at most one. */
  lemma FullShares(total: nat, workers: nat, w: nat)
    requires workers > 0 && w < workers && Before(total, workers, w) < total
    ensures Before(total, workers, w) + Share(total, workers, w) <= total
    ensures forall v :: 0 <= v < workers ==> -1 <= Share(total, workers, v) - Share(total, workers, w) <= 1
  {
    AllShares(total, workers);
    BeforeGrows(total, workers, w, workers);
    BeforeClosed(total, workers, w);
  }

  /** The streams before `n` have slots that exist. */
  ghost predicate InTable(total: nat, workers: nat, n: nat)
    requires workers > 0
  {
    forall s: nat, w: nat, j: nat :: s < n && Holds(total, workers, w, j, s) ==> j < MAX_STREAMS
  }

  lemma InTableMore(total: nat, workers: nat, w: nat, j: nat, s: nat)
    requires workers > 0 && InTable(total, workers, s) && Holds(total, workers, w, j, s) && j < MAX_STREAMS
    ensures InTable(total, workers, s + 1)
  {
    OnePlace(total, workers, s);
  }

  /** No share exceeds `k` exactly if there are at most `k` streams for each worker. */
  lemma SharesUpTo(total: nat, workers: nat, k: nat)
    requires workers > 0 && k > 0
    ensures total <= k * workers ==> forall w :: 0 <= w < workers ==> Share(total, workers, w) <= k
    ensures total > k * workers ==> Share(total, workers, 0) > k
  {
    var q := total / workers;
    DivParts(total, workers);
    assert workers * q == q * workers && (q + 1) * workers == q * workers + workers;
    assert (k + 1) * workers == k * workers + workers;
    if total <= k * workers {
      if q > k {
        MulLe(k + 1, q, workers);
      } else if q == k {
        assert total % workers == 0;
      }
    } else {
      MulLe(1, k, workers);
      MulCancel(k, q + 1, workers);
    }
  }

  lemma TooMany(total: nat, workers: nat, w: nat, j: nat, s: nat)
    requires workers > 0 && Holds(total, workers, w, j, s) && j >= MAX_STREAMS
    ensures total > MAX_STREAMS * workers
  {
    SharesUpTo(total, workers, MAX_STREAMS);
  }

  lemma AllInTable(total: nat, workers: nat)
    requires workers > 0 && InTable(total, workers, total)
    ensures total <= MAX_STREAMS * workers
  {
    SharesUpTo(total, workers, MAX_STREAMS);
    if total > MAX_STREAMS * workers {
      MulLe(1, workers, MAX_STREAMS);
      assert Before(total, workers, 0) == 0;
      assert Holds(total, workers, 0, MAX_STREAMS, MAX_STREAMS);
    }
  }

  /** The stream of queue s % queues of port s / queues: what is received there is sent there. */
  ghost function StreamAt(s: nat, queues: nat): (st: Stream)
    requires queues > 0
  {
    Stream(s / queues, s % queues, s / queues, s % queues)
  }

  /** What core `c` has in slot `j` once the first `n` streams are assigned. */
  ghost function SlotAfter(enabled: seq<bool>, total: nat, workers: nat, queues: nat, n: nat, c: nat, j: nat)
    : (st: Stream)
    requires c < |enabled| && workers > 0
  {
    if enabled[c] && Rank(enabled, c) > 0 && n > 0 && queues > 0 then
      var w := Rank(enabled, c) - 1;
      var s := Before(total, workers, w) + j;
      if w < workers && j < Share(total, workers, w) && s < n then StreamAt(s, queues) else UNSET
    else UNSET
  }

  /** The mode of core `c` once the first `n` streams are assigned. */
  ghost function ModeAfter(enabled: seq<bool>, total: nat, workers: nat, n: nat, c: nat): (m: Mode)
    requires c < |enabled| && workers > 0
  {
    if !enabled[c] then Unused
    else if Rank(enabled, c) == 0 then Stats
    else if Rank(enabled, c) <= workers && Before(total, workers, Rank(enabled, c) - 1) < n then Pkt
    else Unused
  }

  /** streams_nb of core `c` once the first `n` workers have theirs. */
  ghost function NbAfter(enabled: seq<bool>, total: nat, workers: nat, n: nat, c: nat): (nb: nat)
    requires c < |enabled| && workers > 0
  {
    if enabled[c] && 0 < Rank(enabled, c) <= n then Share(total, workers, Rank(enabled, c) - 1) else 0
  }

  /** In the order of the two loops over ports and queues. */
  ghost predicate Earlier(a: Stream, b: Stream)
  {
    a.rxPort < b.rxPort || (a.rxPort == b.rxPort && a.rxQueue < b.rxQueue)
  }

  /** The first enabled core keeps the statistics, the others forward if they have a first stream. */
  lemma ModeIs(enabled: seq<bool>, total: nat, workers: nat, queues: nat, c: nat)
    requires c < |enabled| && workers > 0 && (queues == 0 ==> total == 0)
    ensures ModeAfter(enabled, total, workers, total, c)
         == if !enabled[c] then Unused
            else if forall d :: 0 <= d < c ==> !enabled[d] then Stats
            else if SlotAfter(enabled, total, workers, queues, total, c, 0) != UNSET then Pkt
            else Unused
  {
    FirstHasRank0(enabled, c);
    AllShares(total, workers);
    if queues > 0 && enabled[c] && Rank(enabled, c) > 0 {
      NeverUnset(Before(total, workers, Rank(enabled, c) - 1), queues);
    }
  }

  lemma FirstHasRank0(enabled: seq<bool>, c: nat)
    requires c <= |enabled|
    ensures Rank(enabled, c) == 0 <==> forall d :: 0 <= d < c ==> !enabled[d]
  {
    RankGrows(enabled, 0, c);
    if d :| 0 <= d < c && enabled[d] {
      RankGrows(enabled, d, c);
    }
  }

  /** A slot in use belongs to a worker and is one of its share. */
  lemma UsedSlot(enabled: seq<bool>, total: nat, workers: nat, queues: nat, c: nat, j: nat)
    requires c < |enabled| && workers > 0 && SlotAfter(enabled, total, workers, queues, total, c, j) != UNSET
    ensures enabled[c] && Rank(enabled, c) > 0 && queues > 0
    ensures Holds(total, workers, Rank(enabled, c) - 1, j, Before(total, workers, Rank(enabled, c) - 1) + j)
    ensures SlotAfter(enabled, total, workers, queues, total, c, j)
         == StreamAt(Before(total, workers, Rank(enabled, c) - 1) + j, queues)
    ensures ModeAfter(enabled, total, workers, total, c) == Pkt
    ensures j < NbAfter(enabled, total, workers, workers, c)
  {
  }

  lemma EvenLoads(enabled: seq<bool>, total: nat, workers: nat, c: nat, d: nat)
    requires c < |enabled| && d < |enabled| && workers > 0
    requires ModeAfter(enabled, total, workers, total, c) == ModeAfter(enabled, total, workers, total, d) == Pkt
    ensures -1 <= NbAfter(enabled, total, workers, workers, c) - NbAfter(enabled, total, workers, workers, d) <= 1
  {
  }

  lemma SlotsInOrder(enabled: seq<bool>, total: nat, workers: nat, queues: nat, c: nat, i: nat, d: nat, j: nat)
    requires c <= d < |enabled| && workers > 0 && (c < d || i < j)
    requires SlotAfter(enabled, total, workers, queues, total, c, i) != UNSET
    requires SlotAfter(enabled, total, workers, queues, total, d, j) != UNSET
    ensures Earlier(SlotAfter(enabled, total, workers, queues, total, c, i),
              SlotAfter(enabled, total, workers, queues, total, d, j))
  {
    hide SlotAfter, ModeAfter, NbAfter;
    UsedSlot(enabled, total, workers, queues, c, i);
    UsedSlot(enabled, total, workers, queues, d, j);
    var v, w := Rank(enabled, c) - 1, Rank(enabled, d) - 1;
    if c < d {
      RankGrows(enabled, c, d);
      BeforeGrows(total, workers, v, w);
    }
    NumbersInOrder(Before(total, workers, v) + i, Before(total, workers, w) + j, queues);
  }

  lemma NumbersInOrder(s: nat, t: nat, queues: nat)
    requires queues > 0 && s < t
    ensures Earlier(StreamAt(s, queues), StreamAt(t, queues))
  {
    assert s == (s / queues) * queues + s % queues && t == (t / queues) * queues + t % queues;
    var a, b := s / queues, t / queues;
    assert (b + 1) * queues == b * queues + queues;
    if a > b {
      MulLe(b + 1, a, queues);
    }
  }

  class FlowPerf {
    /** One entry for each of the RTE_MAX_LCORE cores. */
    const enabled: seq<bool>
    const mode: array<Mode>
    const streamsNb: array<nat>
    const streams: array2<Stream>

    constructor (enabled: seq<bool>)
      ensures this.enabled == enabled && Shape() && fresh(mode) && fresh(streamsNb) && fresh(streams)
      ensures forall c :: 0 <= c < |enabled| ==> mode[c] == Unused
    {
      this.enabled := enabled;
      mode := new Mode[|enabled|](_ => Unused);
      streamsNb := new nat[|enabled|](_ => 0);
      streams := new Stream[|enabled|, MAX_STREAMS]((_, _) => UNSET);
    }

    ghost predicate Shape()
    {
      mode.Length == streamsNb.Length == streams.Length0 == |enabled| && streams.Length1 == MAX_STREAMS
    }

    ghost function Workers(): (n: int)
    {
      Rank(enabled, |enabled|) - 1
    }

    /** rte_get_next_lcore without wrap-around; the number of cores if there is none. */
    method NextLcore(i: int) returns (c: nat)
      requires -1 <= i < |enabled|
      ensures i < c <= |enabled| && (c < |enabled| ==> enabled[c])
      ensures forall k :: i < k < c ==> !enabled[k]
    {
      c := i + 1;
      while c < |enabled| && !enabled[c]
        invariant i < c <= |enabled| && forall k :: i < k < c ==> !enabled[k]
      {
        c := c + 1;
      }
    }

    /** The core reserved for statistics. */
    method FirstLcore() returns (c: nat)
      requires Workers() >= 0
      ensures c < |enabled| && enabled[c] && Rank(enabled, c) == 0
    {
      c := NextLcore(-1);
      RankGrows(enabled, 0, c);
    }

    /** As long as not all workers have been passed there is another one. */
    method NextWorker(lcore: nat) returns (c: nat)
      requires lcore < |enabled| && enabled[lcore] && Rank(enabled, lcore) < Workers()
      ensures c < |enabled| && enabled[c] && Rank(enabled, c) == Rank(enabled, lcore) + 1
    {
      c := NextLcore(lcore);
      RankGrows(enabled, lcore + 1, c);
    }

    /** All slots are cleared first. */
    method Clear()
      requires Shape()
      modifies streamsNb, streams
      ensures forall c :: 0 <= c < |enabled| ==> streamsNb[c] == 0
      ensures forall c, j :: 0 <= c < |enabled| && 0 <= j < MAX_STREAMS ==> streams[c, j] == UNSET
    {
      forall c | 0 <= c < |enabled| {
        streamsNb[c] := 0;
      }
      forall c, j | 0 <= c < |enabled| && 0 <= j < MAX_STREAMS {
        streams[c, j] := UNSET;
      }
    }

    /** How many streams every worker gets. */
    method SetShares(total: nat, workers: nat, first: nat)
      requires Shape() && workers == Workers() && workers > 0
      requires first < |enabled| && enabled[first] && Rank(enabled, first) == 0
      requires forall c :: 0 <= c < |enabled| ==> streamsNb[c] == 0
      modifies streamsNb
      ensures forall c :: 0 <= c < |enabled| ==> streamsNb[c] == NbAfter(enabled, total, workers, workers, c)
    {
      var lcore: nat := first;
      var perCore, unassigned := total / workers, total % workers;
      for i := 0 to workers
        invariant lcore < |enabled| && enabled[lcore] && Rank(enabled, lcore) == i
        invariant workers < total ==> unassigned == if i <= total % workers then total % workers - i else 0
        invariant forall c :: 0 <= c < |enabled| ==> streamsNb[c] == NbAfter(enabled, total, workers, i, c)
      {
        lcore := NextWorker(lcore);
        forall c | 0 <= c < |enabled| && enabled[c] && Rank(enabled, c) == i + 1 ensures c == lcore {
          RankIsUnique(enabled, c, lcore);
        }
        if workers >= total {
          streamsNb[lcore] := 1;
        } else {
          streamsNb[lcore] := perCore;
          if unassigned > 0 {
            streamsNb[lcore] := streamsNb[lcore] + 1;
            unassigned := unassigned - 1;
          }
        }
      }
    }

    /** All slots and modes are as after the first `n` streams. */
    ghost predicate Assigned(total: nat, workers: nat, queues: nat, n: nat)
      requires workers > 0
      reads mode, streams
    {
      && Shape()
      && (forall c, j :: 0 <= c < |enabled| && 0 <= j < MAX_STREAMS ==>
            streams[c, j] == SlotAfter(enabled, total, workers, queues, n, c, j))
      && (forall c :: 0 <= c < |enabled| ==> mode[c] == ModeAfter(enabled, total, workers, n, c))
    }

    /** The core that gets stream `s` next is `lcore`, in slot `streamId`, unless it is full. */
    ghost predicate At(total: nat, workers: nat, s: nat, lcore: nat, streamId: nat)
      requires workers > 0
    {
      && lcore < |enabled| && enabled[lcore] && Rank(enabled, lcore) <= workers
      && if Rank(enabled, lcore) == 0 then s == streamId == 0
         else var w := Rank(enabled, lcore) - 1;
              0 < streamId <= Share(total, workers, w) && s == Before(total, workers, w) + streamId
    }

    /** The core and the slot for the next stream. */
    method Advance(ghost total: nat, ghost workers: nat, ghost s: nat, lcore: nat, streamId: nat)
      returns (lcore': nat, streamId': nat)
      requires Shape() && workers == Workers() && workers > 0 && s < total
      requires At(total, workers, s, lcore, streamId)
      requires forall c :: 0 <= c < |enabled| ==> streamsNb[c] == NbAfter(enabled, total, workers, workers, c)
      modifies mode
      ensures lcore' < |enabled| && enabled[lcore'] && Rank(enabled, lcore') > 0
      ensures Holds(total, workers, Rank(enabled, lcore') - 1, streamId', s)
      ensures mode[..] == old(mode[..])[lcore' := if streamId' == 0 then Pkt else old(mode[lcore'])]
    {
      lcore', streamId' := lcore, streamId;
      AllShares(total, workers);
      if streamsNb[lcore] == 0 || streamId % streamsNb[lcore] == 0 {
        FullNow(total, workers, s, Rank(enabled, lcore), streamId);
        lcore' := NextWorker(lcore);
        mode[lcore'] := Pkt;
        streamId' := 0;
      } else {
        NotFull(total, workers, Rank(enabled, lcore) - 1, streamId);
      }
    }

    /** One more stream changes the mode of its core only, and only with its first stream. */
    lemma OtherMode(total: nat, workers: nat, s: nat, lcore: nat, slot: nat, c: nat)
      requires workers > 0 && c < |enabled| && lcore < |enabled| && enabled[lcore] && Rank(enabled, lcore) > 0
      requires Holds(total, workers, Rank(enabled, lcore) - 1, slot, s)
      ensures ModeAfter(enabled, total, workers, s + 1, c)
           == if c == lcore && slot == 0 then Pkt else ModeAfter(enabled, total, workers, s, c)
    {
      StartsNow(total, workers, Rank(enabled, lcore) - 1, slot, s);
      if enabled[c] && Rank(enabled, c) == Rank(enabled, lcore) {
        RankIsUnique(enabled, c, lcore);
      }
    }

    /** The assignment loops. They stop where the source would write behind a core's streams. */
    method Assign(nrPort: nat, queues: nat, ghost workers: nat, first: nat) returns (ok: bool)
      requires Shape() && workers == Workers() && workers > 0
      requires first < |enabled| && enabled[first] && Rank(enabled, first) == 0
      requires Assigned(nrPort * queues, workers, queues, 0)
      requires forall c :: 0 <= c < |enabled| ==> streamsNb[c] == NbAfter(enabled, nrPort * queues, workers, workers, c)
      modifies mode, streams
      ensures ok <==> nrPort * queues <= MAX_STREAMS * workers
      ensures ok ==> Assigned(nrPort * queues, workers, queues, nrPort * queues)
    {
      var lcore, streamId: nat := first, 0;
      ghost var s := 0;
      for port := 0 to nrPort
        invariant s == port * queues && InTable(nrPort * queues, workers, s)
        invariant At(nrPort * queues, workers, s, lcore, streamId) && Assigned(nrPort * queues, workers, queues, s)
      {
        MulLe(port + 1, nrPort, queues);
        assert (port + 1) * queues == port * queues + queues;
        for queue := 0 to queues
          invariant s == port * queues + queue && InTable(nrPort * queues, workers, s)
          invariant At(nrPort * queues, workers, s, lcore, streamId) && Assigned(nrPort * queues, workers, queues, s)
        {
          ok, lcore, streamId := AssignOne(nrPort * queues, workers, queues, s, lcore, streamId, port, queue);
          if !ok {
            return;
          }
          s := s + 1;
        }
      }
      AllInTable(nrPort * queues, workers);
      ok := true;
    }

    /** The body of the inner loop. */
    method AssignOne(ghost total: nat, ghost workers: nat, ghost queues: nat, ghost s: nat, lcore: nat, streamId: nat,
        port: nat, queue: nat)
      returns (ok: bool, lcore': nat, streamId': nat)
      requires Shape() && workers == Workers() && workers > 0 && s < total
      requires queue < queues && s == port * queues + queue
      requires At(total, workers, s, lcore, streamId) && Assigned(total, workers, queues, s)
      requires forall c :: 0 <= c < |enabled| ==> streamsNb[c] == NbAfter(enabled, total, workers, workers, c)
      requires InTable(total, workers, s)
      modifies mode, streams
      ensures !ok ==> total > MAX_STREAMS * workers
      ensures ok ==> At(total, workers, s + 1, lcore', streamId') && Assigned(total, workers, queues, s + 1)
      ensures ok ==> InTable(total, workers, s + 1)
    {
      hide InTable;
      var slot;
      ghost var before := mode[..];
      lcore', slot := Advance(total, workers, s, lcore, streamId);
      streamId' := slot + 1;
      if slot >= MAX_STREAMS {
        TooMany(total, workers, Rank(enabled, lcore') - 1, slot, s);
        return false, lcore', streamId';
      }
      InTableMore(total, workers, Rank(enabled, lcore') - 1, slot, s);
      forall c | 0 <= c < |enabled| ensures mode[c] == ModeAfter(enabled, total, workers, s + 1, c) {
        OtherMode(total, workers, s, lcore', slot, c);
        assert mode[c] == mode[..][c] && before[c] == ModeAfter(enabled, total, workers, s, c);
      }
      streams[lcore', slot] := Stream(port, queue, port, queue);
      DivUnique(s, port, queue, queues);
      ModUnique(s, port, queue, queues);
      forall c, j | 0 <= c < |enabled| && 0 <= j < MAX_STREAMS
        ensures streams[c, j] == SlotAfter(enabled, total, workers, queues, s + 1, c, j)
      {
        OtherSlot(total, workers, queues, s, lcore', slot, c, j);
      }
      ok := true;
    }

    /** One more stream changes one slot only. */
    lemma OtherSlot(total: nat, workers: nat, queues: nat, s: nat, lcore: nat, slot: nat, c: nat, j: nat)
      requires workers > 0 && queues > 0 && c < |enabled|
      requires lcore < |enabled| && enabled[lcore] && Rank(enabled, lcore) > 0
      requires Holds(total, workers, Rank(enabled, lcore) - 1, slot, s)
      ensures SlotAfter(enabled, total, workers, queues, s + 1, c, j)
           == if c == lcore && j == slot then StreamAt(s, queues)
              else SlotAfter(enabled, total, workers, queues, s, c, j)
    {
      if enabled[c] && Rank(enabled, c) > 0 && Holds(total, workers, Rank(enabled, c) - 1, j, s) {
        OnePlace(total, workers, s);
        RankIsUnique(enabled, c, lcore);
      }
    }

    /**
     * init_lcore_info. The first core keeps the statistics, the streams are spread over the
     * others as `SlotAfter` and `Share` say. The streams of every core fit its table exactly if
     * there are no more than MAX_STREAMS for each worker; the source does not check that.
     */
    method InitLcoreInfo(nrPort: nat, queues: nat) returns (ok: bool)
      requires Shape() && Workers() > 0
      requires forall c :: 0 <= c < |enabled| ==> mode[c] == Unused
      modifies mode, streamsNb, streams
      ensures ok <==> nrPort * queues <= 64 * Workers()
      ensures ok ==> Assigned(nrPort * queues, Workers(), queues, nrPort * queues)
      ensures ok ==> forall c :: 0 <= c < |enabled| ==>
                mode[c] == (if !enabled[c] then Unused
                            else if forall d :: 0 <= d < c ==> !enabled[d] then Stats
                            else if streams[c, 0] != Stream(-1, -1, -1, -1) then Pkt
                            else Unused)
      ensures ok ==> UsedInOrder() && WorkersEven()
      ensures ok ==> forall port, queue :: 0 <= port < nrPort && 0 <= queue < queues ==> InOneEntry(port, queue)
      ensures forall c :: 0 <= c < |enabled| ==>
                streamsNb[c] == NbAfter(enabled, nrPort * queues, Workers(), Workers(), c)
    {
      var first := FirstLcore();
      mode[first] := Stats;
      Clear();
      var nbLcores := CountLcores();
      SetShares(nrPort * queues, nbLcores - 1, first);
      forall c | 0 <= c < |enabled| ensures mode[c] == ModeAfter(enabled, nrPort * queues, Workers(), 0, c) {
        if enabled[c] && Rank(enabled, c) == 0 {
          RankIsUnique(enabled, c, first);
        }
      }
      ok := Assign(nrPort, queues, Workers(), first);
      if ok {
        forall port, queue | 0 <= port < nrPort && 0 <= queue < queues ensures InOneEntry(port, queue) {
          EntryOf(nrPort, queues, port, queue);
        }
        SettledModes(nrPort * queues, Workers(), queues);
        SettledStreams(nrPort * queues, Workers(), queues);
        SettledLoads(nrPort * queues, Workers());
      }
    }

    /** A slot in use. */
    ghost predicate Used(c: nat, j: nat)
      requires Shape() && c < |enabled| && j < MAX_STREAMS
      reads streams
    {
      streams[c, j] != UNSET
    }

    /** Only slots of a worker's share are in use, and the streams are in the order of ports and queues. */
    ghost predicate UsedInOrder()
      requires Shape()
      reads mode, streamsNb, streams
    {
      && (forall c, j :: 0 <= c < |enabled| && 0 <= j < MAX_STREAMS && Used(c, j) ==>
            enabled[c] && mode[c] == Pkt && j < streamsNb[c])
      && forall c, d, i, j :: (0 <= c <= d < |enabled| && 0 <= i < MAX_STREAMS && 0 <= j < MAX_STREAMS
           && (c < d || i < j) && Used(c, i) && Used(d, j)) ==> Earlier(streams[c, i], streams[d, j])
    }

    /** The loads of two forwarding cores differ by at most one. */
    ghost predicate WorkersEven()
      requires Shape()
      reads mode, streamsNb
    {
      forall c, d :: 0 <= c < |enabled| && 0 <= d < |enabled| && mode[c] == mode[d] == Pkt ==>
        streamsNb[c] <= streamsNb[d] + 1
    }

    /** The modes once all streams are assigned: the first core, and every core with a stream. */
    lemma SettledModes(total: nat, workers: nat, queues: nat)
      requires workers > 0 && Assigned(total, workers, queues, total) && (queues == 0 ==> total == 0)
      ensures forall c :: 0 <= c < |enabled| ==>
                mode[c] == (if !enabled[c] then Unused
                            else if forall d :: 0 <= d < c ==> !enabled[d] then Stats
                            else if streams[c, 0] != Stream(-1, -1, -1, -1) then Pkt
                            else Unused)
    {
      forall c | 0 <= c < |enabled|
        ensures mode[c] == (if !enabled[c] then Unused
                            else if forall d :: 0 <= d < c ==> !enabled[d] then Stats
                            else if streams[c, 0] != Stream(-1, -1, -1, -1) then Pkt
                            else Unused)
      {
        hide SlotAfter, ModeAfter;
        ModeIs(enabled, total, workers, queues, c);
      }
    }

    lemma SettledLoads(total: nat, workers: nat)
      requires Shape() && workers > 0
      requires forall c :: 0 <= c < |enabled| ==> mode[c] == ModeAfter(enabled, total, workers, total, c)
      requires forall c :: 0 <= c < |enabled| ==> streamsNb[c] == NbAfter(enabled, total, workers, workers, c)
      ensures WorkersEven()
    {
      forall c, d | 0 <= c < |enabled| && 0 <= d < |enabled| && mode[c] == mode[d] == Pkt
        ensures streamsNb[c] <= streamsNb[d] + 1
      {
        hide ModeAfter, NbAfter;
        EvenLoads(enabled, total, workers, c, d);
      }
    }

    /** The streams lie in the order of ports and queues. */
    lemma SettledStreams(total: nat, workers: nat, queues: nat)
      requires workers > 0 && Assigned(total, workers, queues, total)
      requires forall c :: 0 <= c < |enabled| ==> streamsNb[c] == NbAfter(enabled, total, workers, workers, c)
      ensures UsedInOrder()
    {
      hide SlotAfter, ModeAfter, NbAfter;
      forall c, j | 0 <= c < |enabled| && 0 <= j < MAX_STREAMS && Used(c, j)
        ensures enabled[c] && mode[c] == Pkt && j < streamsNb[c]
      {
        UsedSlot(enabled, total, workers, queues, c, j);
      }
      forall c, d, i, j | 0 <= c <= d < |enabled| && 0 <= i < MAX_STREAMS && 0 <= j < MAX_STREAMS && (c < d || i < j)
        && Used(c, i) && Used(d, j)
        ensures Earlier(streams[c, i], streams[d, j])
      {
        SlotsInOrder(enabled, total, workers, queues, c, i, d, j);
      }
    }

    /** Entry `j` of core `c` is the only one with this stream, and `c` is not the first core. */
    ghost predicate OnlyEntry(c: nat, j: nat, st: Stream)
      requires Shape()
      reads streams
    {
      && c < |enabled| && j < MAX_STREAMS && streams[c, j] == st && enabled[c] && Rank(enabled, c) > 0
      && forall d, i :: 0 <= d < |enabled| && 0 <= i < MAX_STREAMS && streams[d, i] == st ==> d == c && i == j
    }

    /** What is received on the queue of the port is sent there by exactly one entry of one worker. */
    ghost predicate InOneEntry(port: int, queue: int)
      requires Shape()
      reads streams
    {
      exists c: nat, j: nat :: OnlyEntry(c, j, Stream(port, queue, port, queue))
    }

    lemma EntryOf(nrPort: nat, queues: nat, port: nat, queue: nat)
      requires Workers() > 0 && port < nrPort && queue < queues && nrPort * queues <= MAX_STREAMS * Workers()
      requires Assigned(nrPort * queues, Workers(), queues, nrPort * queues)
      ensures InOneEntry(port, queue)
    {
      hide OnlyHas;
      var total, workers, s := nrPort * queues, Workers(), port * queues + queue;
      MulLe(port + 1, nrPort, queues);
      assert (port + 1) * queues == port * queues + queues;
      DivUnique(s, port, queue, queues);
      ModUnique(s, port, queue, queues);
      EveryStreamOnce(enabled, total, workers, queues, s);
      var c: nat, j: nat :| OnlyHas(enabled, total, workers, queues, c, j, s);
      EntryInTable(total, workers, queues, c, j, s);
    }

    lemma EntryInTable(total: nat, workers: nat, queues: nat, c: nat, j: nat, s: nat)
      requires workers > 0 && workers == Workers() && queues > 0 && s < total <= MAX_STREAMS * workers
      requires Assigned(total, workers, queues, total) && OnlyHas(enabled, total, workers, queues, c, j, s)
      ensures OnlyEntry(c, j, StreamAt(s, queues))
    {
      HasHolds(enabled, total, workers, queues, c, j, s);
      SharesUpTo(total, workers, MAX_STREAMS);
      forall d, i | 0 <= d < |enabled| && 0 <= i < MAX_STREAMS && streams[d, i] == StreamAt(s, queues)
        ensures d == c && i == j
      {
        assert Has(enabled, total, workers, queues, d, i, s);
      }
    }

    /** rte_lcore_count. */
    method CountLcores() returns (n: nat)
      ensures n == Rank(enabled, |enabled|)
    {
      n := 0;
      for c := 0 to |enabled|
        invariant n == Rank(enabled, c)
      {
        n := n + if enabled[c] then 1 else 0;
      }
    }
  }

  /** One port with 100 queues on two cores: the one worker has too many streams. */
  method TooManyStreams() returns (ok: bool)
    ensures !ok
  {
    var perf := new FlowPerf([true, true]);
    assert Rank([true, true], 2) == 2;
    ok := perf.InitLcoreInfo(1, 100);
  }

  /** Three queues of one port, on three cores and one that is not enabled. */
  method ThreeQueues() returns (ok: bool, perf: FlowPerf)
    ensures ok && fresh(perf) && perf.Shape() && |perf.enabled| == 4
    ensures perf.mode[..] == [Stats, Unused, Pkt, Pkt] && perf.streamsNb[..] == [0, 0, 2, 1]
    ensures perf.streams[2, 0] == Stream(0, 0, 0, 0) && perf.streams[2, 1] == Stream(0, 1, 0, 1)
    ensures perf.streams[3, 0] == Stream(0, 2, 0, 2) && perf.streams[3, 1] == UNSET
  {
    perf := new FlowPerf([true, false, true, true]);
    var enabled := perf.enabled;
    assert Rank(enabled, 1) == 1 && Rank(enabled, 2) == 1 && Rank(enabled, 3) == 2 && Rank(enabled, 4) == 3;
    assert Before(3, 2, 1) == 2;
    ok := perf.InitLcoreInfo(1, 3);
  }

  /** An enabled core of every rank. */
  lemma {:induction false} CoreOfRank(enabled: seq<bool>, r: nat, n: nat) returns (c: nat)
    requires n <= |enabled| && r < Rank(enabled, n)
    ensures c < n && enabled[c] && Rank(enabled, c) == r
    decreases n
  {
    if r < Rank(enabled, n - 1) {
      c := CoreOfRank(enabled, r, n - 1);
    } else {
      c := n - 1;
    }
  }

  /** Core `c` has stream `s` in slot `j`. */
  ghost predicate Has(enabled: seq<bool>, total: nat, workers: nat, queues: nat, c: nat, j: nat, s: nat)
    requires workers > 0 && queues > 0
  {
    c < |enabled| && SlotAfter(enabled, total, workers, queues, total, c, j) == StreamAt(s, queues)
  }

  /** Slot `j` of core `c` is the only one with stream `s`, and `c` is not the first core. */
  ghost predicate OnlyHas(enabled: seq<bool>, total: nat, workers: nat, queues: nat, c: nat, j: nat, s: nat)
    requires workers > 0 && queues > 0
  {
    && Has(enabled, total, workers, queues, c, j, s) && enabled[c] && Rank(enabled, c) > 0
    && forall d: nat, i: nat :: Has(enabled, total, workers, queues, d, i, s) ==> d == c && i == j
  }

  /** The final assignment: every stream is in exactly one slot of one worker, never of the first core. */
  lemma EveryStreamOnce(enabled: seq<bool>, total: nat, workers: nat, queues: nat, s: nat)
    requires workers > 0 && workers == Rank(enabled, |enabled|) - 1 && queues > 0 && s < total
    ensures exists c: nat, j: nat :: OnlyHas(enabled, total, workers, queues, c, j, s)
  {
    hide Has;
    OnePlace(total, workers, s);
    var w: nat, j: nat :| Holds(total, workers, w, j, s);
    var c := CoreOfRank(enabled, w + 1, |enabled|);
    HoldsHas(enabled, total, workers, queues, c, j, s);
    forall d: nat, i: nat | Has(enabled, total, workers, queues, d, i, s)
      ensures d == c && i == j
    {
      HasHolds(enabled, total, workers, queues, d, i, s);
      RankIsUnique(enabled, c, d);
    }
    assert OnlyHas(enabled, total, workers, queues, c, j, s);
  }

  lemma HoldsHas(enabled: seq<bool>, total: nat, workers: nat, queues: nat, c: nat, j: nat, s: nat)
    requires workers > 0 && queues > 0 && c < |enabled| && enabled[c] && Rank(enabled, c) > 0
    requires Holds(total, workers, Rank(enabled, c) - 1, j, s)
    ensures Has(enabled, total, workers, queues, c, j, s)
  {
  }

  lemma HasHolds(enabled: seq<bool>, total: nat, workers: nat, queues: nat, c: nat, j: nat, s: nat)
    requires workers > 0 && queues > 0 && Has(enabled, total, workers, queues, c, j, s)
    ensures c < |enabled| && enabled[c] && Rank(enabled, c) > 0 && Holds(total, workers, Rank(enabled, c) - 1, j, s)
  {
    NeverUnset(s, queues);
    SameStream(s, Before(total, workers, Rank(enabled, c) - 1) + j, queues);
  }

  lemma NeverUnset(s: nat, queues: nat)
    requires queues > 0
    ensures StreamAt(s, queues) != UNSET
  {
    assert s % queues >= 0;
  }

  lemma SameStream(s: nat, t: nat, queues: nat)
    requires queues > 0
    ensures StreamAt(s, queues) == StreamAt(t, queues) ==> s == t
  {
    assert t == (t / queues) * queues + t % queues && s == (s / queues) * queues + s % queues;
  }

  /** The core that just got its last stream is not the last worker. */
  lemma FullNow(total: nat, workers: nat, s: nat, r: nat, streamId: nat)
    requires workers > 0 && s < total && r <= workers
    requires if r == 0 then s == streamId == 0
             else 0 < streamId <= Share(total, workers, r - 1) && s == Before(total, workers, r - 1) + streamId
    requires r > 0 ==> streamId % Share(total, workers, r - 1) == 0
    ensures r < workers && s == Before(total, workers, r)
  {
    AllShares(total, workers);
    if r > 0 {
      var nb := Share(total, workers, r - 1);
      if streamId < nb {
        ModUnique(streamId, 0, streamId, nb);
      }
    }
  }

  lemma NotFull(total: nat, workers: nat, w: nat, streamId: nat)
    requires workers > 0 && 0 < Share(total, workers, w) && streamId <= Share(total, workers, w)
    requires streamId % Share(total, workers, w) != 0
    ensures streamId < Share(total, workers, w)
  {
    ModUnique(Share(total, workers, w), 1, 0, Share(total, workers, w));
  }

  /** A worker's first stream is the one after those of the workers before it. */
  lemma StartsNow(total: nat, workers: nat, w: nat, j: nat, s: nat)
    requires workers > 0 && Holds(total, workers, w, j, s)
    ensures forall v :: 0 <= v < workers && Before(total, workers, v) < s + 1 ==>
              Before(total, workers, v) < s || (v == w && j == 0)
  {
    AllShares(total, workers);
    forall v | 0 <= v < workers && Before(total, workers, v) == s ensures v == w && j == 0 {
      if v < w {
        BeforeGrows(total, workers, v, w);
      } else if w < v {
        BeforeGrows(total, workers, w, v);
      }
    }
  }
}
