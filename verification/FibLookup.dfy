/**
 * The lookup addresses of test-fib (set_rnd_ipv6, gen_rnd_lookup_tbl in test-fib/main.c):
 * an address falls under a prefix when it agrees with it on the first `depth` bits.
 */
module FibLookup {
  import opened Util
  import opened FibRandom

  const WEIGHTS: seq<bv8> := [0x80, 0x40, 0x20, 0x10, 0x08, 0x04, 0x02, 0x01]

  /** Bit `j` of a byte, the highest one first. */
  ghost function Bit8(x: bv8, j: nat): (b: bool)
    requires j < 8
  {
    x & WEIGHTS[j] != 0
  }

  /** Bit `j` of an address in network byte order. */
  ghost function BitAt(addr: seq<bv8>, j: nat): (b: bool)
    requires j < 8 * |addr|
  {
    Bit8(addr[j / 8], j % 8)
  }

  /** A drawn number stored in a byte and in a 32-bit word. */
  function Byte(r: nat): (b: bv8)
  {
    (r % 0x100) as bv8
  }

  function Word(r: nat): (w: bv32)
  {
    (r % 0x1_0000_0000) as bv32
  }

  /** rte_rand() % 100 < ratio. */
  function Chosen(r: nat, ratio: nat): (yes: bool)
  {
    r % 100 < ratio
  }

  ghost function Bytes(draws: seq<nat>): (b: seq<bv8>)
    ensures |b| == |draws| && forall k :: 0 <= k < |b| ==> b[k] == (draws[k] % 0x100) as bv8 == Byte(draws[k])
  {
    seq(|draws|, k requires 0 <= k < |draws| => Byte(draws[k]))
  }

  /** What a byte becomes when `depth` bits of the prefix are left at its first bit. */
  ghost function Mix(rnd: bv8, route: bv8, depth: int): (r: bv8)
  {
    if depth >= 8 then route
    else if depth > 0 then (rnd & (0xFF >> depth)) | (route & (0xFF << (8 - depth)))
    else rnd
  }

  const LOW: seq<bv8> := [0xFF, 0x7F, 0x3F, 0x1F, 0x0F, 0x07, 0x03, 0x01]

  /** The two masks of a byte the prefix ends in. */
  lemma Masks(depth: nat)
    requires 0 < depth < 8
    ensures (0xFF as bv8) >> depth == LOW[depth]
    ensures (0xFF as bv8) << (8 - depth) == !LOW[depth]
  {
    if depth == 1 {
    } else if depth == 2 {
    } else if depth == 3 {
    } else if depth == 4 {
    } else if depth == 5 {
    } else if depth == 6 {
    }
  }

  lemma LowBits(depth: nat, j: nat)
    requires 0 < depth < 8 && j < 8
    ensures LOW[depth] & WEIGHTS[j] == if j < depth then 0 else WEIGHTS[j]
  {
  }

  lemma Select(a: bv8, b: bv8, low: bv8, w: bv8)
    ensures low & w == 0 ==> ((a & low) | (b & !low)) & w == b & w
    ensures low & w == w ==> ((a & low) | (b & !low)) & w == a & w
  {
  }

  lemma MixBits(rnd: bv8, route: bv8, depth: int, j: nat)
    requires j < 8
    ensures Bit8(Mix(rnd, route, depth), j) == if j < depth then Bit8(route, j) else Bit8(rnd, j)
  {
    if 0 < depth < 8 {
      Masks(depth);
      LowBits(depth, j);
      Select(rnd, route, LOW[depth], WEIGHTS[j]);
    }
  }

  /** The first `depth` bits are those of the route, the others those of `rnd`. */
  ghost predicate Under(addr: seq<bv8>, route: seq<bv8>, depth: int, rnd: seq<bv8>)
    requires |addr| == |route| == |rnd|
  {
    forall j :: 0 <= j < 8 * |addr| ==> BitAt(addr, j) == if j < depth then BitAt(route, j) else BitAt(rnd, j)
  }

  lemma MixedIsUnder(addr: seq<bv8>, route: seq<bv8>, depth: int, rnd: seq<bv8>)
    requires |addr| == |route| == |rnd|
    requires forall k :: 0 <= k < |addr| ==> addr[k] == Mix(rnd[k], route[k], depth - 8 * k)
    ensures Under(addr, route, depth, rnd)
  {
    forall j | 0 <= j < 8 * |addr|
      ensures BitAt(addr, j) == if j < depth then BitAt(route, j) else BitAt(rnd, j)
    {
      var k := j / 8;
      MixBits(rnd[k], route[k], depth - 8 * k, j % 8);
    }
  }

  /** set_rnd_ipv6 on the 16 bytes at `at`; for every depth from 0 to 128. `d` are its draws. */
  method SetRndIpv6(rand: Random, addr: array<bv8>, at: nat, route: seq<bv8>, depth: nat) returns (ghost d: seq<nat>)
    requires at + 16 <= addr.Length && |route| == 16 && depth <= 128
    modifies rand, addr
    ensures |d| == 16 && rand.drawn == old(rand.drawn) + d
    ensures Under(addr[at..at + 16], route, depth, Bytes(d))
    ensures addr[..at] == old(addr[..at]) && addr[at + 16..] == old(addr[at + 16..])
  {
    hide Byte;
    d := [];
    for i := 0 to 16
      invariant |d| == i && rand.drawn == old(rand.drawn) + d
      invariant addr[at..at + i] == Bytes(d)
      invariant addr[..at] == old(addr[..at]) && addr[at + 16..] == old(addr[at + 16..])
    {
      var r := rand.Next();
      ghost var before := addr[at..at + i];
      addr[at + i] := Byte(r);
      assert addr[at..at + i + 1] == before + [Byte(r)];
      d := d + [r];
    }
    ghost var rnd := addr[at..at + 16];
    CopyPrefix(addr, at, route, depth, rnd);
    MixedIsUnder(addr[at..at + 16], route, depth, rnd);
  }

  /** The second loop of set_rnd_ipv6. */
  method CopyPrefix(addr: array<bv8>, at: nat, route: seq<bv8>, depth: nat, ghost rnd: seq<bv8>)
    requires at + 16 <= addr.Length && |route| == 16 && rnd == addr[at..at + 16]
    modifies addr
    ensures forall k :: 0 <= k < 16 ==> addr[at..at + 16][k] == Mix(rnd[k], route[k], depth - 8 * k)
    ensures addr[..at] == old(addr[..at]) && addr[at + 16..] == old(addr[at + 16..])
  {
    var left: int := depth;
    var i := 0;
    while i < 16
      invariant 0 <= i <= 16 && left == depth - 8 * i
      invariant forall k :: at <= k < at + i ==> addr[k] == Mix(rnd[k - at], route[k - at], depth - 8 * (k - at))
      invariant forall k :: at + i <= k < at + 16 ==> addr[k] == rnd[k - at]
      invariant addr[..at] == old(addr[..at]) && addr[at + 16..] == old(addr[at + 16..])
    {
      if left >= 8 {
        addr[at + i] := route[i];
      } else if left > 0 {
        addr[at + i] := addr[at + i] & (0xFF >> left);
        addr[at + i] := addr[at + i] | (route[i] & (0xFF << (8 - left)));
      } else {
        return;
      }
      left := left - 8;
      i := i + 1;
    }
  }

  datatype Route4 = Route4(addr: bv32, depth: nat)

  datatype Route6 = Route6(addr: seq<bv8>, depth: nat)

  /** (1ULL << (32 - depth)) - 1: the host bits of a prefix. */
  function HostMask(depth: nat): (m: bv32)
    requires depth <= 32
  {
    (((1 as bv64) << (32 - depth)) - 1) as bv32
  }

  /** The IPv4 address for a route and a random word. */
  function Address4(route: Route4, rnd: bv32): (a: bv32)
    requires route.depth <= 32
  {
    route.addr | (rnd & HostMask(route.depth))
  }

  /** An IPv4 address agrees with a route on all bits but the host bits. */
  ghost predicate Under4(addr: bv32, route: Route4)
    requires route.depth <= 32
  {
    addr & !HostMask(route.depth) == route.addr & !HostMask(route.depth)
  }

  /** A word whose `k` lowest bits are set. */
  ghost function Ones(k: nat): (m: bv32)
  {
    if k == 0 then 0 else (Ones(k - 1) << 1) | 1
  }

  /** The host mask of every depth is made of the bits behind the prefix. */
  lemma {:induction false} HostMaskIsOnes(depth: nat)
    requires depth <= 32
    ensures HostMask(depth) == Ones(32 - depth)
    decreases 32 - depth
  {
    if depth == 32 {
      assert ((1 as bv64) << 0) - 1 == 0;
    } else {
      NextMask(depth);
      HostMaskIsOnes(depth + 1);
    }
  }

  lemma NextMask(depth: nat)
    requires depth < 32
    ensures HostMask(depth) == (HostMask(depth + 1) << 1) | 1
  {
    OneFurther(31 - depth);
    DoubleMask((1 as bv64) << (31 - depth));
  }

  lemma OneFurther(k: nat)
    requires k < 32
    ensures (1 as bv64) << (k + 1) == ((1 as bv64) << k) << 1
    ensures 1 <= (1 as bv64) << k <= 0x8000_0000
  {
  }

  lemma DoubleMask(x: bv64)
    requires 1 <= x <= 0x8000_0000
    ensures ((x << 1) - 1) as bv32 == (((x - 1) as bv32) << 1) | 1
  {
  }

  /** The prefix is kept whatever is drawn and whatever host bits the route has. */
  lemma PrefixKept(route: Route4, rnd: bv32)
    requires route.depth <= 32
    ensures Under4(Address4(route, rnd), route)
  {
    hide HostMask;
    MaskOr(route.addr, rnd, HostMask(route.depth));
  }

  /** The host bits are those drawn. */
  ghost predicate HostBitsDrawn(route: Route4, rnd: bv32)
    requires route.depth <= 32
  {
    Address4(route, rnd) & HostMask(route.depth) == rnd & HostMask(route.depth)
  }

  /** The host bits are random exactly if the route has none set. */
  lemma HostBitsKept(route: Route4)
    requires route.depth <= 32
    ensures (forall rnd: bv32 :: HostBitsDrawn(route, rnd)) <==> route.addr & HostMask(route.depth) == 0
  {
    hide HostMask, HostBitsDrawn;
    if route.addr & HostMask(route.depth) == 0 {
      forall rnd: bv32 ensures HostBitsDrawn(route, rnd) {
        DrawnIfNone(route, rnd);
      }
    } else {
      NotDrawnIfAny(route);
    }
  }

  lemma DrawnIfNone(route: Route4, rnd: bv32)
    requires route.depth <= 32 && route.addr & HostMask(route.depth) == 0
    ensures HostBitsDrawn(route, rnd)
  {
    hide HostMask;
    MaskOr(route.addr, rnd, HostMask(route.depth));
  }

  lemma NotDrawnIfAny(route: Route4)
    requires route.depth <= 32 && route.addr & HostMask(route.depth) != 0
    ensures !HostBitsDrawn(route, 0)
  {
    hide HostMask;
    MaskOr(route.addr, 0, HostMask(route.depth));
  }

  lemma MaskOr(a: bv32, r: bv32, m: bv32)
    ensures (a | (r & m)) & m == (a & m) | (r & m)
    ensures (a | (r & m)) & !m == a & !m
  {
  }

  /** How many entries were drawn at random. */
  ghost function Count(random: seq<bool>): (n: nat)
    ensures n <= |random|
  {
    if random == [] then 0 else Count(random[..|random| - 1]) + if random[|random| - 1] then 1 else 0
  }

  lemma CountMore(random: seq<bool>, yes: bool)
    ensures Count(random + [yes]) == Count(random) + if yes then 1 else 0
  {
    assert (random + [yes])[..|random|] == random;
  }

  /** An entry of the IPv4 table, from the two numbers drawn for it. */
  ghost predicate EntryFrom(a: bv32, route: Route4, ratio: nat, choice: nat, rnd: nat)
    requires route.depth <= 32
  {
    a == if Chosen(choice, ratio) then Word(rnd) else Address4(route, Word(rnd))
  }

  ghost predicate Routes4(rt: seq<Route4>)
  {
    rt != [] && forall j :: 0 <= j < |rt| ==> rt[j].depth <= 32
  }

  /** The first `n` entries of the IPv4 table, from the draws `d`. */
  ghost predicate Table4(tbl: seq<bv32>, n: nat, rt: seq<Route4>, ratio: nat, d: seq<nat>, random: seq<bool>)
    requires Routes4(rt)
  {
    && n <= |tbl| && |d| == 2 * n && |random| == n
    && forall i :: 0 <= i < n ==>
         && (random[i] <==> Chosen(d[2 * i], ratio))
         && EntryFrom(tbl[i], rt[i % |rt|], ratio, d[2 * i], d[2 * i + 1])
  }

  lemma Table4More(tbl: seq<bv32>, tbl': seq<bv32>, n: nat, rt: seq<Route4>, ratio: nat, d: seq<nat>,
                   random: seq<bool>, choice: nat, rnd: nat)
    requires Routes4(rt) && Table4(tbl, n, rt, ratio, d, random) && n < |tbl| == |tbl'|
    requires tbl'[..n] == tbl[..n] && EntryFrom(tbl'[n], rt[n % |rt|], ratio, choice, rnd)
    ensures Table4(tbl', n + 1, rt, ratio, d + [choice, rnd], random + [Chosen(choice, ratio)])
  {
    hide EntryFrom, Chosen;
    var d', random' := d + [choice, rnd], random + [Chosen(choice, ratio)];
    forall i | 0 <= i < n + 1
      ensures random'[i] <==> Chosen(d'[2 * i], ratio)
      ensures EntryFrom(tbl'[i], rt[i % |rt|], ratio, d'[2 * i], d'[2 * i + 1])
    {
      if i < n {
        assert tbl'[..n][i] == tbl[..n][i];
      }
    }
  }

  /** What was not drawn at random falls under its route. */
  lemma EntriesUnder(tbl: seq<bv32>, n: nat, rt: seq<Route4>, ratio: nat, d: seq<nat>, random: seq<bool>)
    requires Routes4(rt) && Table4(tbl, n, rt, ratio, d, random)
    ensures forall i :: 0 <= i < n && !random[i] ==> Under4(tbl[i], rt[i % |rt|])
  {
    hide Address4, Under4, Word;
    forall i | 0 <= i < n && !random[i] ensures Under4(tbl[i], rt[i % |rt|]) {
      PrefixKept(rt[i % |rt|], Word(d[2 * i + 1]));
    }
  }

  class Config {
    const rndLookupIpsRatio: nat
    var nbLookupIpsRnd: nat

    constructor (ratio: nat)
      ensures rndLookupIpsRatio == ratio && nbLookupIpsRnd == 0
    {
      rndLookupIpsRatio, nbLookupIpsRnd := ratio, 0;
    }

    /**
     * gen_rnd_lookup_tbl for IPv4: of the draws `d`, two decide each entry. Entry `i` is a drawn
     * word with the configured chance, and counted then; else it falls under route i % nb_routes.
     */
    method GenTable4(rand: Random, tbl: array<bv32>, rt: seq<Route4>)
      returns (ghost d: seq<nat>, ghost random: seq<bool>)
      requires Routes4(rt)
      modifies rand, this`nbLookupIpsRnd, tbl
      ensures rand.drawn == old(rand.drawn) + d && Table4(tbl[..], tbl.Length, rt, rndLookupIpsRatio, d, random)
      ensures |random| == tbl.Length && |d| == 2 * tbl.Length
      ensures forall i :: 0 <= i < tbl.Length ==> (random[i] <==> d[2 * i] % 100 < rndLookupIpsRatio)
      ensures forall i :: 0 <= i < tbl.Length && random[i] ==> tbl[i] == (d[2 * i + 1] % 0x1_0000_0000) as bv32
      ensures nbLookupIpsRnd == old(nbLookupIpsRnd) + Count(random)
      ensures forall i :: 0 <= i < tbl.Length && !random[i] ==> Under4(tbl[i], rt[i % |rt|])
    {
      hide Count, Table4, Address4, Word, Chosen;
      d, random := [], [];
      var i, j := 0, 0;
      EmptyTable4(tbl[..], rt, rndLookupIpsRatio);
      while i < tbl.Length
        invariant 0 <= i <= tbl.Length && j == i % |rt|
        invariant rand.drawn == old(rand.drawn) + d && Table4(tbl[..], i, rt, rndLookupIpsRatio, d, random)
        invariant nbLookupIpsRnd == old(nbLookupIpsRnd) + Count(random)
      {
        ghost var before := tbl[..];
        var choice := rand.Next();
        var yes := Chosen(choice, rndLookupIpsRatio);
        var rnd := rand.Next();
        tbl[i] := if yes then Word(rnd) else Address4(rt[j], Word(rnd));
        if yes {
          nbLookupIpsRnd := nbLookupIpsRnd + 1;
        }
        Table4More(before, tbl[..], i, rt, rndLookupIpsRatio, d, random, choice, rnd);
        CountMore(random, yes);
        d, random := d + [choice, rnd], random + [yes];
        NextInCircle(i, |rt|);
        i, j := i + 1, (j + 1) % |rt|;
      }
      EntriesUnder(tbl[..], i, rt, rndLookupIpsRatio, d, random);
      RandomOnes4(tbl[..], i, rt, rndLookupIpsRatio, d, random);
    }

    /** One entry of the IPv6 table. */
    method SetEntry(rand: Random, tbl: array<bv8>, i: nat, route: Route6, yes: bool) returns (ghost d: seq<nat>)
      requires 16 * i + 16 <= tbl.Length && |route.addr| == 16 && route.depth <= 128
      modifies rand, this`nbLookupIpsRnd, tbl
      ensures |d| == 16 && rand.drawn == old(rand.drawn) + d
      ensures nbLookupIpsRnd == old(nbLookupIpsRnd) + if yes then 1 else 0
      ensures EntryUnder(tbl[..], i, route, yes, Bytes(d))
      ensures tbl[..16 * i] == old(tbl[..16 * i])
    {
      hide Under, Bytes;
      if yes {
        d := SetRndIpv6(rand, tbl, i * 16, route.addr, 0);
        nbLookupIpsRnd := nbLookupIpsRnd + 1;
      } else {
        d := SetRndIpv6(rand, tbl, i * 16, route.addr, route.depth);
      }
      assert Entry(tbl[..], i) == tbl[i * 16..i * 16 + 16];
    }

    /**
     * gen_rnd_lookup_tbl for IPv6, 16 bytes an entry: of the draws `d`, the first of every 17
     * decides whether the entry is random, the others give its bytes.
     */
    method GenTable6(rand: Random, tbl: array<bv8>, n: nat, rt: seq<Route6>)
      returns (ghost d: seq<nat>, ghost random: seq<bool>)
      requires tbl.Length == 16 * n && Routes6(rt)
      modifies rand, this`nbLookupIpsRnd, tbl
      ensures rand.drawn == old(rand.drawn) + d && Table6(tbl[..], n, rt, rndLookupIpsRatio, d, random)
      ensures |random| == n && |d| == 17 * n
      ensures forall i :: 0 <= i < n ==> (random[i] <==> d[17 * i] % 100 < rndLookupIpsRatio)
      ensures nbLookupIpsRnd == old(nbLookupIpsRnd) + Count(random)
    {
      hide EntryUnder, Count, Table6, Chosen, Bytes;
      d, random := [], [];
      var i, j := 0, 0;
      EmptyTable6(tbl[..], rt, rndLookupIpsRatio);
      while i < n
        invariant 0 <= i <= n && j == i % |rt|
        invariant rand.drawn == old(rand.drawn) + d && Table6(tbl[..], i, rt, rndLookupIpsRatio, d, random)
        invariant nbLookupIpsRnd == old(nbLookupIpsRnd) + Count(random)
      {
        ghost var before := tbl[..];
        var choice := rand.Next();
        var yes := Chosen(choice, rndLookupIpsRatio);
        ghost var more := SetEntry(rand, tbl, i, rt[j], yes);
        Table6More(before, tbl[..], i, rt, rndLookupIpsRatio, d, random, choice, more);
        CountMore(random, yes);
        assert d + ([choice] + more) == d + [choice] + more;
        d, random := d + ([choice] + more), random + [yes];
        NextInCircle(i, |rt|);
        i, j := i + 1, (j + 1) % |rt|;
      }
      RandomOnes6(tbl[..], n, rt, rndLookupIpsRatio, d, random);
    }
  }

  lemma RandomOnes4(tbl: seq<bv32>, n: nat, rt: seq<Route4>, ratio: nat, d: seq<nat>, random: seq<bool>)
    requires Routes4(rt) && Table4(tbl, n, rt, ratio, d, random)
    ensures |random| == n && |d| == 2 * n
    ensures forall i :: 0 <= i < n ==> (random[i] <==> d[2 * i] % 100 < ratio)
    ensures forall i :: 0 <= i < n && random[i] ==> tbl[i] == (d[2 * i + 1] % 0x1_0000_0000) as bv32
  {
    hide Address4;
  }

  lemma RandomOnes6(tbl: seq<bv8>, n: nat, rt: seq<Route6>, ratio: nat, d: seq<nat>, random: seq<bool>)
    requires Routes6(rt) && 16 * n <= |tbl| && Table6(tbl, n, rt, ratio, d, random)
    ensures |random| == n && |d| == 17 * n
    ensures forall i :: 0 <= i < n ==> (random[i] <==> d[17 * i] % 100 < ratio)
  {
    hide EntryUnder;
  }

  lemma EmptyTable4(tbl: seq<bv32>, rt: seq<Route4>, ratio: nat)
    requires Routes4(rt)
    ensures Table4(tbl, 0, rt, ratio, [], [])
    ensures Count([]) == 0
  {
  }

  lemma EmptyTable6(tbl: seq<bv8>, rt: seq<Route6>, ratio: nat)
    requires Routes6(rt)
    ensures Table6(tbl, 0, rt, ratio, [], [])
    ensures Count([]) == 0
  {
  }

  ghost predicate Routes6(rt: seq<Route6>)
  {
    rt != [] && forall j :: 0 <= j < |rt| ==> |rt[j].addr| == 16 && rt[j].depth <= 128
  }

  /** The first `n` entries of the IPv6 table, from the draws `d`. */
  ghost predicate Table6(tbl: seq<bv8>, n: nat, rt: seq<Route6>, ratio: nat, d: seq<nat>, random: seq<bool>)
    requires Routes6(rt)
  {
    && |d| == 17 * n && |random| == n
    && forall i :: 0 <= i < n ==>
         && (random[i] <==> Chosen(d[17 * i], ratio))
         && EntryUnder(tbl, i, rt[i % |rt|], random[i], Bytes(d[17 * i + 1..17 * i + 17]))
  }

  lemma Table6More(tbl: seq<bv8>, tbl': seq<bv8>, n: nat, rt: seq<Route6>, ratio: nat, d: seq<nat>,
                   random: seq<bool>, choice: nat, more: seq<nat>)
    requires Routes6(rt) && Table6(tbl, n, rt, ratio, d, random) && |tbl'| == |tbl| && 16 * n <= |tbl|
    requires tbl'[..16 * n] == tbl[..16 * n] && |more| == 16
    requires EntryUnder(tbl', n, rt[n % |rt|], Chosen(choice, ratio), Bytes(more))
    ensures Table6(tbl', n + 1, rt, ratio, d + ([choice] + more), random + [Chosen(choice, ratio)])
  {
    hide EntryUnder, Chosen, Bytes;
    var d', random' := d + ([choice] + more), random + [Chosen(choice, ratio)];
    SameEntries(tbl, tbl', n);
    forall i | 0 <= i < n + 1
      ensures random'[i] <==> Chosen(d'[17 * i], ratio)
      ensures EntryUnder(tbl', i, rt[i % |rt|], random'[i], Bytes(d'[17 * i + 1..17 * i + 17]))
    {
      if i < n {
        assert d'[17 * i + 1..17 * i + 17] == d[17 * i + 1..17 * i + 17];
      } else {
        assert d'[17 * i + 1..17 * i + 17] == more;
      }
    }
  }

  /** Entry `i` of an IPv6 table. */
  ghost function Entry(tbl: seq<bv8>, i: nat): (e: seq<bv8>)
    requires 16 * i + 16 <= |tbl|
    ensures |e| == 16
  {
    tbl[16 * i..16 * i + 16]
  }

  /** Entry `i` falls under the route, or under no prefix at all if it was drawn at random. */
  ghost predicate EntryUnder(tbl: seq<bv8>, i: nat, route: Route6, random: bool, rnd: seq<bv8>)
  {
    && 16 * i + 16 <= |tbl| && |route.addr| == |rnd| == 16
    && Under(Entry(tbl, i), route.addr, if random then 0 else route.depth, rnd)
  }

  lemma SameEntries(before: seq<bv8>, after: seq<bv8>, i: nat)
    requires |before| == |after| && 16 * i <= |after| && before[..16 * i] == after[..16 * i]
    ensures forall k, route, random, rnd :: 0 <= k < i && EntryUnder(before, k, route, random, rnd)
              ==> EntryUnder(after, k, route, random, rnd)
  {
    forall k | 0 <= k < i ensures Entry(before, k) == Entry(after, k) {
      assert Entry(before, k) == before[..16 * i][16 * k..16 * k + 16];
    }
  }
}
