/**
 * Where test-crypto-perf lets the device write the digest: option checks
 * (cperf_options_parsing.c), growth of the segment size per device (main.c), number and length
 * of the segments (cperf_test_common.c) and the walk over the segments (cperf_ops.c).
 */
module DigestPlacement {
  import opened Util

  datatype OpType = CipherOnly | AuthOnly | CipherThenAuth | AuthThenCipher | Aead | Docsis | Ipsec | OtherOp

  /** What a driver asks for in front of and behind the data of an mbuf. */
  datatype DeviceNeeds = DeviceNeeds(minHeadroom: nat, minTailroom: nat)

  /** The place of a digest: a segment and an offset into its data. */
  datatype Place = Place(seg: nat, offset: nat)

  const PKTMBUF_HEADROOM := 128

  /** The room for data in a segment of this size once all devices have been added. */
  ghost function DataRoom(devices: seq<DeviceNeeds>, headroomSz: nat, tailroomSz: nat, segmentSz: nat): (d: nat)
    requires devices != []
  {
    if |devices| == 1 then segmentSz
    else
      var h, t := Max(headroomSz, devices[0].minHeadroom), Max(tailroomSz, devices[0].minTailroom);
      DataRoom(devices[1..], h, t, segmentSz + (h + t))
  }

  /** A headroom or tailroom is asked for by the options or by a device before the last. */
  ghost predicate AsksForRoom(devices: seq<DeviceNeeds>, headroomSz: nat, tailroomSz: nat)
  {
    || headroomSz + tailroomSz > 0
    || exists i :: 0 <= i < |devices| - 1 && devices[i].minHeadroom + devices[i].minTailroom > 0
  }

  /** The data have the whole segment, and more than that exactly if several devices ask for room. */
  lemma {:induction false} RoomGrows(devices: seq<DeviceNeeds>, headroomSz: nat, tailroomSz: nat, segmentSz: nat)
    requires devices != []
    ensures DataRoom(devices, headroomSz, tailroomSz, segmentSz)
         >= segmentSz + (|devices| - 1) * (headroomSz + tailroomSz)
    ensures DataRoom(devices, headroomSz, tailroomSz, segmentSz) > segmentSz
       <==> |devices| > 1 && AsksForRoom(devices, headroomSz, tailroomSz)
    decreases |devices|
  {
    if |devices| > 1 {
      var h, t := Max(headroomSz, devices[0].minHeadroom), Max(tailroomSz, devices[0].minTailroom);
      RoomGrows(devices[1..], h, t, segmentSz + (h + t));
      hide DataRoom;
      OneMoreDevice(|devices| - 2, headroomSz + tailroomSz, h + t);
      FirstAsks(devices, headroomSz, tailroomSz);
    }
  }

  /** Whether room is asked for shows at the first device that asks, or at the options. */
  lemma FirstAsks(devices: seq<DeviceNeeds>, headroomSz: nat, tailroomSz: nat)
    requires |devices| > 1
    ensures var h, t := Max(headroomSz, devices[0].minHeadroom), Max(tailroomSz, devices[0].minTailroom);
            (AsksForRoom(devices, headroomSz, tailroomSz)
             <==> h + t > 0 || (|devices| > 2 && AsksForRoom(devices[1..], h, t)))
  {
    var rest := devices[1..];
    forall i | 0 <= i < |rest| ensures rest[i] == devices[i + 1] {
    }
    if i :| 0 < i < |devices| - 1 && devices[i].minHeadroom + devices[i].minTailroom > 0 {
      assert rest[i - 1] == devices[i];
    }
  }

  lemma OneMoreDevice(k: nat, a: nat, b: nat)
    requires a <= b
    ensures (k + 1) * a <= k * b + b
  {
    MulLe(a, b, k + 1);
    assert (k + 1) * b == k * b + b;
  }

  /** What the devices ask for in front of the data, and behind them. */
  ghost function Headrooms(devices: seq<DeviceNeeds>): (s: seq<nat>)
    ensures |s| == |devices| && forall k :: 0 <= k < |s| ==> s[k] == devices[k].minHeadroom
  {
    seq(|devices|, k requires 0 <= k < |devices| => devices[k].minHeadroom)
  }

  ghost function Tailrooms(devices: seq<DeviceNeeds>): (s: seq<nat>)
    ensures |s| == |devices| && forall k :: 0 <= k < |s| ==> s[k] == devices[k].minTailroom
  {
    seq(|devices|, k requires 0 <= k < |devices| => devices[k].minTailroom)
  }

  ghost predicate Largest(m: nat, s: seq<nat>)
  {
    m in s && forall k :: 0 <= k < |s| ==> s[k] <= m
  }

  /** The largest once there is one more. */
  lemma LargestNext(m: nat, s: seq<nat>, t: seq<nat>, x: nat)
    requires Largest(m, s) && t == s + [x]
    ensures Largest(Max(m, x), t)
  {
    assert t[|s|] == x;
  }

  lemma NoneYet(m: nat)
    ensures Largest(m, [m] + Headrooms([])) && Largest(m, [m] + Tailrooms([]))
  {
    assert [m] + Headrooms([]) == [m] == [m] + Tailrooms([]);
  }

  lemma OneMore(h: nat, t: nat, headroomSz: nat, tailroomSz: nat, devices: seq<DeviceNeeds>, i: nat)
    requires i < |devices|
    requires Largest(h, [headroomSz] + Headrooms(devices[..i])) && Largest(t, [tailroomSz] + Tailrooms(devices[..i]))
    ensures Largest(Max(h, devices[i].minHeadroom), [headroomSz] + Headrooms(devices[..i + 1]))
    ensures Largest(Max(t, devices[i].minTailroom), [tailroomSz] + Tailrooms(devices[..i + 1]))
  {
    hide Largest;
    assert devices[..i + 1][..i] == devices[..i];
    LargestNext(h, [headroomSz] + Headrooms(devices[..i]), [headroomSz] + Headrooms(devices[..i + 1]),
      devices[i].minHeadroom);
    LargestNext(t, [tailroomSz] + Tailrooms(devices[..i]), [tailroomSz] + Tailrooms(devices[..i + 1]),
      devices[i].minTailroom);
  }

  class Options {
    const opType: OpType
    const outOfPlace: bool
    const maxBufferSize: nat
    var digestSz: nat
    /** 0 stands for "not set". */
    var segmentSz: nat
    var headroomSz: nat
    var tailroomSz: nat

    constructor (opType: OpType, outOfPlace: bool, maxBufferSize: nat, digestSz: nat, segmentSz: nat, headroomSz: nat,
        tailroomSz: nat)
      ensures this.opType == opType && this.outOfPlace == outOfPlace && this.maxBufferSize == maxBufferSize
      ensures this.digestSz == digestSz && this.segmentSz == segmentSz
      ensures this.headroomSz == headroomSz && this.tailroomSz == tailroomSz
    {
      this.opType, this.outOfPlace, this.maxBufferSize := opType, outOfPlace, maxBufferSize;
      this.digestSz, this.segmentSz, this.headroomSz, this.tailroomSz := digestSz, segmentSz, headroomSz, tailroomSz;
    }

    /**
     * The part of cperf_options_check about the digest and the segment size. Out of place one
     * segment has to take the data; a segment has to take the digest. Without a size given a
     * segment is as large as the data with the digest.
     */
    method Check() returns (ok: bool)
      modifies this`digestSz, this`segmentSz
      ensures digestSz == if opType == CipherOnly || opType == Docsis then 0 else old(digestSz)
      ensures !outOfPlace ==> (ok <==> old(segmentSz) == 0 || digestSz <= old(segmentSz))
      ensures outOfPlace ==> (ok <==> old(segmentSz) > maxBufferSize && digestSz <= old(segmentSz))
      ensures ok && old(segmentSz) > 0 ==> segmentSz == old(segmentSz)
      ensures ok && old(segmentSz) == 0 ==>
        segmentSz == maxBufferSize + digestSz + if opType == Ipsec then 128 else 0
      ensures ok ==> digestSz <= segmentSz
    {
      if opType == CipherOnly || opType == Docsis {
        digestSz := 0;
      }
      if outOfPlace && segmentSz <= maxBufferSize {
        return false;
      }
      if segmentSz == 0 {
        segmentSz := maxBufferSize + digestSz;
        if opType == Ipsec {
          segmentSz := segmentSz + PKTMBUF_HEADROOM;
        }
      }
      if segmentSz < digestSz {
        return false;
      }
      return true;
    }

    /** The room for data in a segment, as cperf_alloc_common_memory computes it. */
    ghost predicate HasDataLen(d: nat)
      reads this
    {
      segmentSz == headroomSz + d + tailroomSz
    }

    /** One device of cperf_initialize_cryptodev: the segment size of before is room for data now. */
    method AddDevice(needs: DeviceNeeds)
      modifies this`headroomSz, this`tailroomSz, this`segmentSz
      ensures HasDataLen(old(segmentSz))
      ensures headroomSz == Max(old(headroomSz), needs.minHeadroom)
      ensures tailroomSz == Max(old(tailroomSz), needs.minTailroom)
    {
      if headroomSz < needs.minHeadroom {
        headroomSz := needs.minHeadroom;
      }
      if tailroomSz < needs.minTailroom {
        tailroomSz := needs.minTailroom;
      }
      segmentSz := segmentSz + (headroomSz + tailroomSz);
    }

    /** The loop over the devices. The size grows with each; the room for data never shrinks. */
    method AddDevices(devices: seq<DeviceNeeds>) returns (ghost d: nat)
      requires devices != []
      modifies this`headroomSz, this`tailroomSz, this`segmentSz
      ensures HasDataLen(d) && d >= old(segmentSz)
      ensures d == DataRoom(devices, old(headroomSz), old(tailroomSz), old(segmentSz))
      ensures Largest(headroomSz, [old(headroomSz)] + Headrooms(devices))
      ensures Largest(tailroomSz, [old(tailroomSz)] + Tailrooms(devices))
    {
      hide Largest;
      d := segmentSz;
      NoneYet(headroomSz);
      NoneYet(tailroomSz);
      assert devices[..0] == [] && devices[..|devices|] == devices;
      var i := 0;
      while i < |devices|
        invariant 0 <= i <= |devices|
        invariant Largest(headroomSz, [old(headroomSz)] + Headrooms(devices[..i]))
        invariant Largest(tailroomSz, [old(tailroomSz)] + Tailrooms(devices[..i]))
        invariant if i == 0 then segmentSz == d == old(segmentSz) else HasDataLen(d) && d >= old(segmentSz)
        invariant var room := DataRoom(devices, old(headroomSz), old(tailroomSz), old(segmentSz));
                  room == if i == |devices| then d else DataRoom(devices[i..], headroomSz, tailroomSz, segmentSz)
      {
        d := segmentSz;
        assert devices[i..][1..] == devices[i + 1..] && devices[i..][0] == devices[i];
        OneMore(headroomSz, tailroomSz, old(headroomSz), old(tailroomSz), devices, i);
        AddDevice(devices[i]);
        i := i + 1;
      }
    }

    /** segments_nb and data_len of cperf_alloc_common_memory. */
    method Sizes(ghost d: nat) returns (segmentsNb: nat, dataLen: nat)
      requires HasDataLen(d) && d > 0
      ensures dataLen == d
      ensures if maxBufferSize + digestSz == 0 then segmentsNb == 0
              else Enough(segmentsNb, d, maxBufferSize, digestSz)
    {
      var maxSize := maxBufferSize + digestSz;
      dataLen := segmentSz - headroomSz - tailroomSz;
      segmentsNb := DivCeil(maxSize, dataLen);
      DivCeilCovers(maxSize, dataLen);
    }

    /**
     * The object of cperf_alloc_common_memory: the op, the source segments, and out of place a
     * destination, which has the same headroom but only max_size bytes.
     */
    method Layout(opSz: nat, mbufSz: nat, segmentsNb: nat) returns (objSz: nat, dstOffset: nat)
      ensures !outOfPlace ==> dstOffset == 0
      ensures outOfPlace ==>
        forall b :: DigestInObject(objSz, dstOffset, mbufSz, b) <==> headroomSz + b <= maxBufferSize
    {
      var mbufTotal := mbufSz + segmentSz;
      var maxSize := maxBufferSize + digestSz;
      objSz, dstOffset := opSz + mbufTotal * segmentsNb, 0;
      if outOfPlace {
        dstOffset := opSz + mbufTotal * segmentsNb;
        objSz := objSz + (maxSize + mbufSz);
      }
    }

    /** The digest of `b` bytes out of place ends within the object. */
    ghost predicate DigestInObject(objSz: nat, dstOffset: nat, mbufSz: nat, b: nat)
      reads this`headroomSz, this`digestSz
    {
      dstOffset + mbufSz + headroomSz + b + digestSz <= objSz
    }
  }

  /**
   * The data_len of the segments that can be reached from m_src. With several segments the `next`
   * of the last one still points behind it, to memory that is not a segment of the op.
   */
  function Reachable(segmentsNb: nat, dataLen: nat, behind: nat): (lens: seq<nat>)
    ensures |lens| == segmentsNb + (if segmentsNb == 1 then 0 else 1)
    ensures forall k :: 0 <= k < segmentsNb ==> lens[k] == dataLen
  {
    seq(segmentsNb, k => dataLen) + if segmentsNb == 1 then [] else [behind]
  }

  /** The first segment whose data reach past `offset`, or the last one. */
  function Stop(lens: seq<nat>, seg: nat, offset: nat): (p: Place)
    requires seg < |lens|
    ensures p.seg < |lens|
    decreases |lens| - seg
  {
    if seg + 1 < |lens| && offset >= lens[seg] then Stop(lens, seg + 1, offset - lens[seg]) else Place(seg, offset)
  }

  /** Subtraction of 32-bit unsigned numbers. */
  function Sub32(a: nat, b: nat): (r: int)
  {
    if a >= b then a - b else a - b + 0x1_0000_0000
  }

  /** The place the walk arrives at; None stands for a null buffer. */
  function Located(lens: seq<nat>, b: nat, digestSz: nat): (p: Option<Place>)
    requires lens != []
  {
    var stop := Stop(lens, 0, b);
    if Sub32(lens[stop.seg], stop.offset) >= digestSz then Some(stop)
    else if stop.seg + 1 < |lens| then Some(Place(stop.seg + 1, 0))
    else None
  }

  /** The walk for an op in place, as in cperf_set_ops_auth. */
  method Walk(lens: seq<nat>, b: nat, digestSz: nat) returns (p: Option<Place>)
    requires lens != []
    ensures p == Located(lens, b, digestSz)
  {
    var seg, offset := 0, b;
    while seg + 1 < |lens| && offset >= lens[seg]
      invariant 0 <= seg < |lens| && 0 <= offset
      invariant Stop(lens, seg, offset) == Stop(lens, 0, b)
      decreases |lens| - seg
    {
      offset := offset - lens[seg];
      seg := seg + 1;
    }
    if Sub32(lens[seg], offset) < digestSz {
      seg := seg + 1;
      offset := 0;
    }
    return if seg < |lens| then Some(Place(seg, offset)) else None;
  }

  /** `n` segments of `d` bytes are just enough for the data and the digest. */
  ghost predicate Enough(n: nat, d: nat, maxBufferSize: nat, digestSz: nat)
  {
    (n - 1) * d < maxBufferSize + digestSz <= n * d
  }

  /** The digest lies inside one of the op's segments, behind the data and less than a digest away. */
  ghost predicate Fits(p: Place, n: nat, d: nat, b: nat, digestSz: nat)
  {
    && p.seg < n && p.offset + digestSz <= d
    && b <= p.seg * d + p.offset < b + Max(digestSz, 1)
    && (p.offset == 0 || p.seg * d + p.offset == b)
  }

  /** The end of the data if the digest fits behind it in its segment, else the next segment. */
  ghost function Slot(b: nat, digestSz: nat, d: nat): (p: Place)
    requires d > 0
  {
    if d - b % d >= digestSz then Place(b / d, b % d) else Place(b / d + 1, 0)
  }

  /** In segments of equal length the walk divides. */
  lemma {:induction false} StopDivides(lens: seq<nat>, d: nat, seg: nat, b: nat)
    requires d > 0 && seg <= b / d < |lens| && seg * d <= b
    requires forall k :: 0 <= k <= b / d ==> lens[k] == d
    requires b / d + 1 < |lens| || b % d < d
    ensures Stop(lens, seg, b - seg * d) == Place(b / d, b % d)
    decreases b / d - seg
  {
    assert b == (b / d) * d + b % d;
    if seg == b / d {
    } else {
      MulLe(seg + 1, b / d, d);
      StopDivides(lens, d, seg + 1, b);
      assert b - seg * d - d == b - (seg + 1) * d;
    }
  }

  /**
   * For every non-zero digest and every buffer size up to the maximum, the digest fits: the walk
   * never leaves the op's segments, whatever lies behind them.
   */
  lemma InPlaceFits(n: nat, d: nat, maxBufferSize: nat, digestSz: nat, b: nat, behind: nat)
    requires 0 < digestSz <= d && b <= maxBufferSize && Enough(n, d, maxBufferSize, digestSz)
    ensures n > 0
    ensures var p := Located(Reachable(n, d, behind), b, digestSz);
            p == Some(Slot(b, digestSz, d)) && Fits(p.value, n, d, b, digestSz)
  {
    hide Enough, Fits;
    SlotFits(n, d, maxBufferSize, digestSz, b);
    StopDivides(Reachable(n, d, behind), d, 0, b);
  }

  /** The slot for the digest is in a segment that exists. */
  lemma SlotFits(n: nat, d: nat, maxBufferSize: nat, digestSz: nat, b: nat)
    requires 0 < digestSz <= d && b <= maxBufferSize && Enough(n, d, maxBufferSize, digestSz)
    ensures b / d < n && b % d < d
    ensures Fits(Slot(b, digestSz, d), n, d, b, digestSz)
    ensures Slot(b, digestSz, d).seg < n
  {
    var q := b / d;
    assert b == q * d + b % d;
    MulCancel(q, n, d);
    assert (q + 1) * d == q * d + d;
    if d - b % d < digestSz {
      MulCancel(q + 1, n, d);
    }
  }

  /** With an empty digest the walk leaves the segments exactly when the data fill several of them. */
  lemma EmptyDigest(n: nat, d: nat, maxBufferSize: nat, b: nat, behind: nat)
    requires d > 0 && b <= maxBufferSize && maxBufferSize > 0 && Enough(n, d, maxBufferSize, 0)
    ensures n > 0
    ensures var p := Located(Reachable(n, d, behind), b, 0);
            p.Some? && (p.value.seg < n <==> n == 1 || b < n * d)
  {
    SomeSegment(n, d, maxBufferSize);
    hide Enough, Located, Reachable;
    if b < n * d {
      EmptyInside(n, d, b, behind);
    } else {
      EmptyBehind(n, d, b, behind);
    }
  }

  lemma EmptyInside(n: nat, d: nat, b: nat, behind: nat)
    requires n > 0 && d > 0 && b < n * d
    ensures var p := Located(Reachable(n, d, behind), b, 0);
            p.Some? && p.value.seg < n
  {
    var lens := Reachable(n, d, behind);
    QuotientBelow(b, n, d);
    StopDivides(lens, d, 0, b);
  }

  lemma EmptyBehind(n: nat, d: nat, b: nat, behind: nat)
    requires n > 0 && b == n * d
    ensures var p := Located(Reachable(n, d, behind), b, 0);
            p.Some? && (p.value.seg < n <==> n == 1)
  {
    if n > 1 {
      StopBehind(Reachable(n, d, behind), d, n, 0, b);
    }
  }

  lemma SomeSegment(n: nat, d: nat, size: nat)
    requires Enough(n, d, size, 0) && size > 0
    ensures n > 0 && size <= n * d
  {
  }

  lemma QuotientBelow(b: nat, n: nat, d: nat)
    requires d > 0 && b < n * d
    ensures b / d < n && 0 <= b % d < d
  {
    assert b == (b / d) * d + b % d;
    MulCancel(b / d, n, d);
  }

  lemma {:induction false} StopBehind(lens: seq<nat>, d: nat, n: nat, seg: nat, b: nat)
    requires seg <= n == |lens| - 1 && b == n * d && forall k :: 0 <= k < n ==> lens[k] == d
    ensures seg * d <= b
    ensures Stop(lens, seg, b - seg * d) == Place(n, 0)
    decreases n - seg
  {
    MulLe(seg, n, d);
    if seg < n {
      MulLe(seg + 1, n, d);
      assert (seg + 1) * d == seg * d + d;
      StopBehind(lens, d, n, seg + 1, b);
    }
  }

  /** Out of place, where only one segment is written, all sizes fit exactly when the largest does. */
  lemma OutOfPlaceFits(d: nat, maxBufferSize: nat, digestSz: nat)
    ensures (forall b :: 0 <= b <= maxBufferSize ==> Fits(Place(0, b), 1, d, b, digestSz))
       <==> maxBufferSize + digestSz <= d
  {
    assert Fits(Place(0, maxBufferSize), 1, d, maxBufferSize, digestSz) <==> maxBufferSize + digestSz <= d;
  }

  /** From the options to the segments of an op: their number, and the room for data in each. */
  method Segments(opts: Options, devices: seq<DeviceNeeds>) returns (ok: bool, n: nat, d: nat)
    requires devices != [] && opts.digestSz > 0
    requires opts.opType != CipherOnly && opts.opType != Docsis && opts.opType != Ipsec
    modifies opts`digestSz, opts`segmentSz, opts`headroomSz, opts`tailroomSz
    ensures opts.digestSz == old(opts.digestSz)
    ensures !opts.outOfPlace ==> (ok <==> old(opts.segmentSz) == 0 || opts.digestSz <= old(opts.segmentSz))
    ensures opts.outOfPlace ==>
      (ok <==> old(opts.segmentSz) > opts.maxBufferSize && opts.digestSz <= old(opts.segmentSz))
    ensures ok ==> opts.segmentSz == opts.headroomSz + d + opts.tailroomSz
    ensures ok ==>
      var given := if old(opts.segmentSz) > 0 then old(opts.segmentSz) else opts.maxBufferSize + opts.digestSz;
      && d == DataRoom(devices, old(opts.headroomSz), old(opts.tailroomSz), given)
      && d >= given && (|devices| == 1 ==> d == given)
    ensures ok ==> Largest(opts.headroomSz, [old(opts.headroomSz)] + Headrooms(devices))
    ensures ok ==> Largest(opts.tailroomSz, [old(opts.tailroomSz)] + Tailrooms(devices))
    ensures ok ==> (n - 1) * d < opts.maxBufferSize + opts.digestSz <= n * d
  {
    n, d := 0, 0;
    ok := opts.Check();
    if !ok {
      return;
    }
    ghost var given := opts.segmentSz;
    ghost var room := opts.AddDevices(devices);
    RoomGrows(devices, old(opts.headroomSz), old(opts.tailroomSz), given);
    hide DataRoom;
    n, d := opts.Sizes(room);
  }

  /** Segments that take the data with the digest are enough one by one. */
  lemma OneSegment(n: nat, d: nat, size: nat)
    requires (n - 1) * d < size <= n * d && 0 < size <= d
    ensures n == 1
  {
    if n > 1 {
      MulLe(1, n - 1, d);
    }
  }

  lemma FitsFirst(d: nat, b: nat, digestSz: nat)
    ensures Fits(Place(0, b), 1, d, b, digestSz) <==> b + digestSz <= d
  {
  }

  lemma InPlaceAt(n: nat, d: nat, maxBufferSize: nat, digestSz: nat, b: nat, behind: nat)
    requires (n - 1) * d < maxBufferSize + digestSz <= n * d && 0 < digestSz <= d && b <= maxBufferSize
    ensures n > 0
    ensures Located(Reachable(n, d, behind), b, digestSz).Some?
    ensures var p := Located(Reachable(n, d, behind), b, digestSz).value;
            && p.seg < n && p.offset + digestSz <= d
            && if d - b % d >= digestSz then p.seg == b / d && p.offset == b % d
               else p.seg == b / d + 1 && p.offset == 0
  {
    hide Located, Reachable;
    InPlaceFits(n, d, maxBufferSize, digestSz, b, behind);
  }

  /**
   * From the options to the digest of an op that generates one. The options that are accepted
   * let it fit in place; out of place the check accepts segments that leave no room for it.
   */
  method PlaceDigest(opts: Options, devices: seq<DeviceNeeds>, b: nat, behind: nat)
    returns (ok: bool, p: Option<Place>, n: nat, d: nat)
    requires opts.opType in {AuthOnly, CipherThenAuth, AuthThenCipher, Aead} && opts.digestSz > 0
    requires devices != [] && b <= opts.maxBufferSize
    modifies opts`digestSz, opts`segmentSz, opts`headroomSz, opts`tailroomSz
    ensures opts.digestSz == old(opts.digestSz)
    ensures !opts.outOfPlace ==> (ok <==> old(opts.segmentSz) == 0 || opts.digestSz <= old(opts.segmentSz))
    ensures opts.outOfPlace ==>
      (ok <==> old(opts.segmentSz) > opts.maxBufferSize && opts.digestSz <= old(opts.segmentSz))
    ensures ok ==> opts.segmentSz == opts.headroomSz + d + opts.tailroomSz
    ensures ok ==>
      var given := if old(opts.segmentSz) > 0 then old(opts.segmentSz) else opts.maxBufferSize + opts.digestSz;
      && d == DataRoom(devices, old(opts.headroomSz), old(opts.tailroomSz), given)
      && d >= given && (|devices| == 1 ==> d == given)
    ensures ok ==> Largest(opts.headroomSz, [old(opts.headroomSz)] + Headrooms(devices))
    ensures ok ==> Largest(opts.tailroomSz, [old(opts.tailroomSz)] + Tailrooms(devices))
    ensures ok ==> (n - 1) * d < opts.maxBufferSize + opts.digestSz <= n * d && p.Some?
    ensures ok && !opts.outOfPlace ==> p.value.seg < n && p.value.offset + opts.digestSz <= d
    ensures ok && !opts.outOfPlace ==>
      if d - b % d >= opts.digestSz then p.value.seg == b / d && p.value.offset == b % d
      else p.value.seg == b / d + 1 && p.value.offset == 0
    ensures ok && old(opts.segmentSz) == 0 ==> n == 1
    ensures ok && opts.outOfPlace ==> p == Some(Place(0, b))
    ensures ok && opts.outOfPlace ==> (Fits(p.value, 1, d, b, opts.digestSz) <==> b + opts.digestSz <= d)
  {
    hide DataRoom, Largest, Located, Reachable, Headrooms, Tailrooms, Fits;
    p := None;
    ok, n, d := Segments(opts, devices);
    if !ok {
      return;
    }
    if old(opts.segmentSz) == 0 {
      OneSegment(n, d, opts.maxBufferSize + opts.digestSz);
    }
    if opts.outOfPlace {
      p := Some(Place(0, b));
      FitsFirst(d, b, opts.digestSz);
    } else {
      InPlaceAt(n, d, opts.maxBufferSize, opts.digestSz, b, behind);
      p := Walk(Reachable(n, d, behind), b, opts.digestSz);
    }
  }

  /** Options with several segments: the digest goes behind the data or to the next segment. */
  method SeveralSegments(b: nat, behind: nat) returns (ok: bool, p: Option<Place>, n: nat, d: nat)
    requires b <= 1500
    ensures ok && n == 3 && d == 512
    ensures b == 1500 ==> p == Some(Place(2, 476))
    ensures b == 1010 ==> p == Some(Place(2, 0))
    ensures b == 492 ==> p == Some(Place(0, 492))
  {
    var opts := new Options(AuthOnly, false, 1500, 20, 512, 0, 0);
    ok, p, n, d := PlaceDigest(opts, [DeviceNeeds(0, 0)], b, behind);
    MulCancel(n - 1, 3, 512);
    MulCancel(2, n, 512);
  }

  /** Two devices: the head and tailroom of the first are room for data once the second is added. */
  method TwoDevices() returns (ok: bool, p: Option<Place>, n: nat, d: nat, segmentSz: nat)
    ensures ok && n == 1 && d == 1520 + 24 && segmentSz == d + 16 + 8
  {
    var opts := new Options(AuthOnly, false, 1500, 20, 0, 0, 0);
    var devices := [DeviceNeeds(16, 8), DeviceNeeds(8, 0)];
    assert ([0] + Headrooms(devices))[1] == 16 && ([0] + Tailrooms(devices))[1] == 8;
    assert DataRoom(devices[1..], 16, 8, 1544) == 1544;
    ok, p, n, d := PlaceDigest(opts, devices, 1500, 0);
    segmentSz := opts.segmentSz;
  }

  /** Options that are accepted although the digest does not fit the destination's segment. */
  method NoRoomInSegment() returns (ok: bool, p: Option<Place>, d: nat)
    ensures ok && d == 65 && p == Some(Place(0, 64)) && !Fits(p.value, 1, d, 64, 16)
  {
    var opts := new Options(AuthOnly, true, 64, 16, 65, 0, 0);
    var n;
    ok, p, n, d := PlaceDigest(opts, [DeviceNeeds(0, 0)], 64, 0);
  }

  /** Options with which it fits the segment, but with a headroom not the object. */
  method NoRoomInObject() returns (ok: bool, p: Option<Place>, d: nat, inObject: bool)
    ensures ok && p == Some(Place(0, 64)) && Fits(p.value, 1, d, 64, 16) && !inObject
  {
    var opts := new Options(AuthOnly, true, 64, 16, 80, 0, 0);
    var n, objSz, dstOffset;
    var device := DeviceNeeds(8, 0);
    ok, p, n, d := PlaceDigest(opts, [device], 64, 0);
    assert ([0] + Headrooms([device]))[1] == 8;
    objSz, dstOffset := opts.Layout(192, 128, n);
    assert opts.DigestInObject(objSz, dstOffset, 128, 64) <==> opts.headroomSz + 64 <= 64;
    inObject := dstOffset + 128 + opts.headroomSz + 64 + 16 <= objSz;
  }
}
