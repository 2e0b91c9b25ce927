/**
 * The calls that hand bursts of ops to a device and take them back. In the loops of the
 * compression tests and of two of the crypto tests what is asked for follows from the calls
 * before.
 */
module Traffic {
  import opened Util
  import opened Orders

  /** A call that asked for `asked` ops, `done` of which the device took or gave. */
  datatype Call = Enq(asked: nat, done: nat) | Deq(asked: nat, done: nat)

  /** The ops a device has taken, and those it has given back. */
  ghost function TakenIn(calls: seq<Call>): (n: nat)
  {
    if calls == [] then 0
    else TakenIn(calls[..|calls| - 1]) + if calls[|calls| - 1].Enq? then calls[|calls| - 1].done else 0
  }

  ghost function GivenIn(calls: seq<Call>): (n: nat)
  {
    if calls == [] then 0
    else GivenIn(calls[..|calls| - 1]) + if calls[|calls| - 1].Deq? then calls[|calls| - 1].done else 0
  }

  ghost predicate AfterEnq(calls: seq<Call>)
  {
    calls != [] && calls[|calls| - 1].Enq?
  }

  lemma CallMore(calls: seq<Call>, call: Call)
    ensures TakenIn(calls + [call]) == TakenIn(calls) + if call.Enq? then call.done else 0
    ensures GivenIn(calls + [call]) == GivenIn(calls) + if call.Deq? then call.done else 0
    ensures AfterEnq(calls + [call]) <==> call.Enq?
  {
    assert (calls + [call])[..|calls|] == calls;
  }

  lemma {:induction false} CallsConcat(a: seq<Call>, b: seq<Call>)
    ensures TakenIn(a + b) == TakenIn(a) + TakenIn(b) && GivenIn(a + b) == GivenIn(a) + GivenIn(b)
    decreases |b|
  {
    if b == [] {
      assert a + b == a;
    } else {
      var front, last := b[..|b| - 1], b[|b| - 1];
      CallsConcat(a, front);
      CallMore(a + front, last);
      CallMore(front, last);
      assert a + b == a + front + [last] && b == front + [last];
    }
  }

  /**
   * The call that follows `before` in rounds of `n` ops with bursts of `burst`. After an enqueue
   * call comes a dequeue call. It asks for a burst, or, if `wide`, for all ops in use, a count
   * passed as a uint16_t: those in the device and those it has just not taken. When a round has
   * been handed over what is in the device is asked for burst by burst. Else the next burst is
   * handed over, of which the round may leave less.
   */
  ghost predicate IsNext(before: seq<Call>, call: Call, n: nat, burst: nat, wide: bool)
    requires n > 0
  {
    var out := TakenIn(before) - GivenIn(before);
    if AfterEnq(before) then
      var last := before[|before| - 1];
      call.Deq? && call.asked == if wide then (out + last.asked - last.done) % 0x1_0000 else burst
    else if TakenIn(before) % n == 0 && out > 0 then call.Deq? && call.asked == burst
    else call.Enq? && call.asked == Min(burst, n - TakenIn(before) % n)
  }

  /** Every call is the one that follows. */
  ghost predicate InBursts(calls: seq<Call>, n: nat, burst: nat, wide: bool)
  {
    forall i :: 0 <= i < |calls| ==> n > 0 && IsNext(calls[..i], calls[i], n, burst, wide)
  }

  /** What that means for the single calls. */
  lemma BurstFacts(calls: seq<Call>, n: nat, burst: nat, wide: bool)
    requires InBursts(calls, n, burst, wide)
    ensures calls != [] ==> calls[0].Enq? && calls[0].asked == if burst < n then burst else n
    ensures forall i :: 0 <= i < |calls| && calls[i].Enq? ==>
              calls[i].asked == burst || calls[i].asked == n - TakenIn(calls[..i]) % n < burst
    ensures !wide ==> forall i :: 0 <= i < |calls| && calls[i].Deq? ==> calls[i].asked == burst
    ensures forall i :: 0 <= i < |calls| - 1 && calls[i].Enq? ==> calls[i + 1].Deq?
  {
    hide TakenIn, GivenIn;
    if calls != [] {
      assert calls[..0] == [];
      NoCalls(n, burst, wide);
      ModUnique(0, 0, 0, n);
    }
    forall i | 0 <= i < |calls| - 1 && calls[i].Enq? ensures calls[i + 1].Deq? {
      assert calls[..i + 1][i] == calls[i];
    }
  }

  lemma OneCallMore(calls: seq<Call>, call: Call, n: nat, burst: nat, wide: bool)
    requires n > 0 && InBursts(calls, n, burst, wide) && IsNext(calls, call, n, burst, wide)
    ensures InBursts(calls + [call], n, burst, wide)
  {
    hide IsNext;
    var more := calls + [call];
    assert more[..|calls|] == calls;
    forall i | 0 <= i < |more| ensures IsNext(more[..i], more[i], n, burst, wide) {
      if i < |calls| {
        assert more[..i] == calls[..i];
      }
    }
  }

  /** Whole rounds: everything has been handed over `k` times and is back. */
  ghost predicate WholeRounds(calls: seq<Call>, n: nat, burst: nat, wide: bool, k: nat)
  {
    && InBursts(calls, n, burst, wide) && !AfterEnq(calls)
    && TakenIn(calls) == GivenIn(calls) == k * n
  }

  /** Behind whole rounds the calls go on as at the start. */
  lemma NextBehindRounds(a: seq<Call>, before: seq<Call>, call: Call, n: nat, burst: nat, wide: bool, k: nat)
    requires n > 0 && WholeRounds(a, n, burst, wide, k) && IsNext(before, call, n, burst, wide)
    ensures IsNext(a + before, call, n, burst, wide)
  {
    hide InBursts;
    CallsConcat(a, before);
    SameRest(TakenIn(before), k, n);
    if before == [] {
      assert a + before == a;
    } else {
      assert (a + before)[|a + before| - 1] == before[|before| - 1];
    }
  }

  lemma SameRest(x: nat, k: nat, n: nat)
    requires n > 0
    ensures (k * n + x) % n == x % n
  {
    assert x == (x / n) * n + x % n;
    assert k * n + x == (k + x / n) * n + x % n;
    ModUnique(k * n + x, k + x / n, x % n, n);
  }

  lemma RoundsBehindRounds(a: seq<Call>, b: seq<Call>, n: nat, burst: nat, wide: bool, j: nat, k: nat)
    requires WholeRounds(a, n, burst, wide, j) && WholeRounds(b, n, burst, wide, k)
    ensures WholeRounds(a + b, n, burst, wide, j + k)
  {
    hide IsNext, TakenIn, GivenIn;
    CallsConcat(a, b);
    assert j * n + k * n == (j + k) * n;
    var all := a + b;
    forall i | 0 <= i < |all| ensures n > 0 && IsNext(all[..i], all[i], n, burst, wide) {
      if i < |a| {
        assert all[..i] == a[..i];
      } else {
        assert IsNext(b[..i - |a|], b[i - |a|], n, burst, wide);
        NextBehindRounds(a, b[..i - |a|], b[i - |a|], n, burst, wide, j);
        assert all[..i] == a + b[..i - |a|];
      }
    }
    assert b == [] ==> all == a;
  }

  /**
   * Since the log was `c`: the calls of a round of which `enqd` ops have been handed over and
   * `deqd` are back.
   */
  ghost predicate Midway(c: seq<Call>, calls: seq<Call>, n: nat, burst: nat, enqd: nat, deqd: nat, quiet: bool)
  {
    && c <= calls
    && var more := calls[|c|..];
    && InBursts(more, n, burst, false) && TakenIn(more) == enqd && GivenIn(more) == deqd
    && (AfterEnq(more) <==> !quiet)
  }

  lemma MidwayStart(c: seq<Call>, n: nat, burst: nat)
    ensures Midway(c, c, n, burst, 0, 0, true)
  {
    NoCalls(n, burst, false);
  }

  lemma MidwayEnq(c: seq<Call>, calls: seq<Call>, n: nat, burst: nat, enqd: nat, deqd: nat, k: nat)
    requires Midway(c, calls, n, burst, enqd, deqd, true) && enqd < n && (enqd == 0 ==> deqd == 0)
    ensures Midway(c, calls + [Enq(Min(burst, n - enqd), k)], n, burst, enqd + k, deqd, false)
  {
    var more, call := calls[|c|..], Enq(Min(burst, n - enqd), k);
    assert (calls + [call])[|c|..] == more + [call];
    ModUnique(enqd, 0, enqd, n);
    OneCallMore(more, call, n, burst, false);
    CallMore(more, call);
  }

  lemma MidwayDeq(c: seq<Call>, calls: seq<Call>, n: nat, burst: nat, enqd: nat, deqd: nat, quiet: bool, k: nat)
    requires Midway(c, calls, n, burst, enqd, deqd, quiet) && (quiet ==> enqd == n && deqd < n)
    ensures Midway(c, calls + [Deq(burst, k)], n, burst, enqd, deqd + k, true)
  {
    var more, call := calls[|c|..], Deq(burst, k);
    assert (calls + [call])[|c|..] == more + [call];
    if !quiet {
      assert more[..0] == [];
    }
    ModUnique(n, 1, 0, n);
    OneCallMore(more, call, n, burst, false);
    CallMore(more, call);
  }

  /** An enqueue call and the dequeue call behind it. */
  lemma MidwayBoth(c: seq<Call>, calls: seq<Call>, n: nat, burst: nat, enqd: nat, deqd: nat, k: nat, m: nat)
    requires Midway(c, calls, n, burst, enqd, deqd, true) && enqd < n && (enqd == 0 ==> deqd == 0)
    ensures Midway(c, calls + [Enq(Min(burst, n - enqd), k), Deq(burst, m)], n, burst, enqd + k, deqd + m, true)
  {
    hide Midway;
    var call := Enq(Min(burst, n - enqd), k);
    MidwayEnq(c, calls, n, burst, enqd, deqd, k);
    MidwayDeq(c, calls + [call], n, burst, enqd + k, deqd, false, m);
    assert calls + [call] + [Deq(burst, m)] == calls + [call, Deq(burst, m)];
  }

  /** One round for each of the burst sizes. */
  ghost predicate RunsOf(runs: seq<seq<Call>>, n: nat, bursts: seq<nat>)
  {
    |runs| == |bursts| && forall i :: 0 <= i < |runs| ==> WholeRounds(runs[i], n, bursts[i], false, 1)
  }

  lemma NoRuns(n: nat)
    ensures RunsOf([], n, []) && Concat<Call>([]) == []
  {
  }

  /** The calls of one run more. */
  lemma OneRunMore(first: seq<Call>, c: seq<Call>, calls: seq<Call>, runs: seq<seq<Call>>, n: nat,
                   bursts: seq<nat>, i: nat)
    returns (runs': seq<seq<Call>>)
    requires i < |bursts| && c == first + Concat(runs) && RunsOf(runs, n, bursts[..i])
    requires Midway(c, calls, n, bursts[i], n, n, true)
    ensures calls == first + Concat(runs') && RunsOf(runs', n, bursts[..i + 1])
  {
    hide InBursts, TakenIn, GivenIn;
    var run := calls[|c|..];
    runs' := runs + [run];
    ConcatAppend(runs, run);
    ConcatAssociates(first, Concat(runs), run);
    assert bursts[..i + 1] == bursts[..i] + [bursts[i]];
  }

  /**
   * The call that follows `before` when `n` ops go through an array of `room` entries in turns: the
   * device is filled burst by burst until it takes no more or all of this turn, and then emptied.
   */
  ghost predicate IsTurn(before: seq<Call>, call: Call, n: nat, room: nat, burst: nat)
  {
    var out, all := TakenIn(before) - GivenIn(before), Min(room, n - GivenIn(before));
    if out > 0 && (!AfterEnq(before) || before[|before| - 1].done == 0 || out == all)
    then call.Deq? && call.asked == Min(burst, out)
    else call.Enq? && call.asked == Min(burst, all - out)
  }

  ghost predicate InTurns(calls: seq<Call>, n: nat, room: nat, burst: nat)
  {
    forall i :: 0 <= i < |calls| ==> IsTurn(calls[..i], calls[i], n, room, burst)
  }

  lemma OneTurnMore(calls: seq<Call>, call: Call, n: nat, room: nat, burst: nat)
    requires InTurns(calls, n, room, burst) && IsTurn(calls, call, n, room, burst)
    ensures InTurns(calls + [call], n, room, burst)
  {
    hide IsTurn;
    var more := calls + [call];
    assert more[..|calls|] == calls;
    forall i | 0 <= i < |more| ensures IsTurn(more[..i], more[i], n, room, burst) {
      if i < |calls| {
        assert more[..i] == calls[..i];
      }
    }
  }

  /** Since the log was `c`: `taken` and `given` ops; `filled` when the device is to be emptied. */
  ghost predicate Turning(c: seq<Call>, calls: seq<Call>, n: nat, room: nat, burst: nat, taken: nat, given: nat,
                          filled: bool)
  {
    && c <= calls
    && var more := calls[|c|..];
    && InTurns(more, n, room, burst) && TakenIn(more) == taken && GivenIn(more) == given
    && (taken > given ==>
          (filled <==> !AfterEnq(more) || more[|more| - 1].done == 0 || taken - given == Min(room, n - given)))
  }

  lemma TurningStart(c: seq<Call>, n: nat, room: nat, burst: nat)
    ensures Turning(c, c, n, room, burst, 0, 0, true)
  {
  }

  lemma TurnEnq(c: seq<Call>, calls: seq<Call>, n: nat, room: nat, burst: nat, taken: nat, given: nat,
                filled: bool, k: nat)
    requires Turning(c, calls, n, room, burst, taken, given, filled) && (taken > given ==> !filled)
    requires given <= taken && taken - given < Min(room, n - given)
    ensures var all := Min(room, n - given);
            Turning(c, calls + [Enq(Min(burst, all - (taken - given)), k)], n, room, burst, taken + k, given,
                    k == 0 || taken + k - given == all)
  {
    var more, call := calls[|c|..], Enq(Min(burst, Min(room, n - given) - (taken - given)), k);
    assert (calls + [call])[|c|..] == more + [call];
    OneTurnMore(more, call, n, room, burst);
    CallMore(more, call);
  }

  lemma TurnDeq(c: seq<Call>, calls: seq<Call>, n: nat, room: nat, burst: nat, taken: nat, given: nat, k: nat)
    requires Turning(c, calls, n, room, burst, taken, given, true) && given < taken
    ensures Turning(c, calls + [Deq(Min(burst, taken - given), k)], n, room, burst, taken, given + k, true)
  {
    var more, call := calls[|c|..], Deq(Min(burst, taken - given), k);
    assert (calls + [call])[|c|..] == more + [call];
    OneTurnMore(more, call, n, room, burst);
    CallMore(more, call);
  }

  /** A run in turns for each of the burst sizes. */
  ghost predicate TurnsOf(runs: seq<seq<Call>>, n: nat, room: nat, bursts: seq<nat>)
  {
    && |runs| == |bursts|
    && forall i :: 0 <= i < |runs| ==>
         InTurns(runs[i], n, room, bursts[i]) && TakenIn(runs[i]) == GivenIn(runs[i]) == n
  }

  lemma NoTurns(n: nat, room: nat)
    ensures TurnsOf([], n, room, []) && Concat<Call>([]) == []
  {
  }

  lemma OneMoreInTurns(first: seq<Call>, c: seq<Call>, calls: seq<Call>, runs: seq<seq<Call>>, n: nat, room: nat,
                       bursts: seq<nat>, i: nat)
    returns (runs': seq<seq<Call>>)
    requires i < |bursts| && c == first + Concat(runs) && TurnsOf(runs, n, room, bursts[..i])
    requires Turning(c, calls, n, room, bursts[i], n, n, true)
    ensures calls == first + Concat(runs') && TurnsOf(runs', n, room, bursts[..i + 1])
  {
    hide InTurns, TakenIn, GivenIn;
    var run := calls[|c|..];
    runs' := runs + [run];
    ConcatAppend(runs, run);
    ConcatAssociates(first, Concat(runs), run);
    assert bursts[..i + 1] == bursts[..i] + [bursts[i]];
  }

  /** Rounds over something need calls. */
  lemma RoundsHaveCalls(calls: seq<Call>, n: nat, burst: nat, wide: bool, k: nat)
    requires WholeRounds(calls, n, burst, wide, k) && n > 0 && k > 0
    ensures calls != []
  {
    MulLe(1, k, n);
  }

  lemma NoCalls(n: nat, burst: nat, wide: bool)
    ensures InBursts([], n, burst, wide) && WholeRounds([], n, burst, wide, 0)
    ensures TakenIn([]) == GivenIn([]) == 0 && !AfterEnq([])
  {
  }
}
